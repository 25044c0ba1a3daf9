/** Restoring a snapshot (vfs-snap.c: restore_dir, vfs_snap_restore), and that it
    gives back what was stored. */
module Restore {
  import opened Bytes
  import Names
  import opened Entries
  import opened TreeText
  import opened Objects
  import opened Directory
  import opened Depots
  import opened VfsPath
  import opened VfsTree
  import opened Vfs
  import opened SnapSpec
  import opened Snap

  // ------------------------------------------------------------------
  // What restoring does to a tree
  // ------------------------------------------------------------------

  /** The path of an entry, as it fits the snapshot code's buffer. */
  function SnapPath(dirpath: Path, name: seq<byte>): Path
  {
    Cut(if dirpath == ROOT then [SLASH] + name else dirpath + [SLASH] + name)
  }

  /** Bytes held by all files of a tree. */
  ghost function Size(t: Tree): nat
  {
    if t == {} then 0
    else
      var n :| n in t;
      |n.data| + Size(t - {n})
  }

  /** vfs_write's quota test as a tree stands. */
  ghost predicate OverIn(t: Tree, quota: nat, path: Path, len: nat)
  {
    Normalized(path).Some?
    && var e := At(t, Normalized(path).value);
       OverQuota(Wrap(Size(t)), quota, if e.Some? then |e.value.data| else 0, len)
  }

  datatype Restored = Restored(ok: bool, tree: Tree)

  /** restore_dir into a tree with this quota; None when its recursion goes deeper
      than n. */
  ghost function RestoreTree(d: Depot, n: nat, quota: nat, u: Tree, path: Path, addr: Addr, k: Maker, now: Int64): Option<Restored>
    decreases n, 0, 0
  {
    if n == 0 then None
    else
      match Load(d, addr)
      case Listing(dir) => RestoreEntries(d, n - 1, quota, u, path, dir, k, now)
      case _ => Some(Restored(false, u))
  }

  /** Its entry loop, up to the first failure */
  ghost function RestoreEntries(d: Depot, n: nat, quota: nat, u: Tree, path: Path, dir: seq<Entry>, k: Maker,
        now: Int64): Option<Restored>
    decreases n, 2, |dir|
  {
    if dir == [] then Some(Restored(true, u))
    else
      var r := RestoreEntry(d, n, quota, u, path, dir[0], k, now);
      if r.None? || !r.value.ok then r else RestoreEntries(d, n, quota, r.value.tree, path, dir[1..], k, now)
  }

  ghost function RestoreEntry(d: Depot, n: nat, quota: nat, u: Tree, path: Path, e: Entry, k: Maker, now: Int64): Option<Restored>
    decreases n, 1, 0
  {
    var p := SnapPath(path, e.name);
    if FileType(e.mode) == S_IFREG then
      var o := Open(d, e.hash);
      if !o.Got? || o.o.kind != BLOB then Some(Restored(false, u))
      else
        var w := Write(u, p, o.o.data, true, k, now, OverIn(u, quota, p, |o.o.data|));
        Some(Restored(w.code.OK?, w.tree))
    else if IsDirEntry(e) then
      var m := Mkdir(u, p, true, k, now);
      if !m.code.OK? then Some(Restored(false, m.tree)) else RestoreTree(d, n, quota, m.tree, p, e.hash, k, now)
    else Some(Restored(true, u))
  }

  // ------------------------------------------------------------------
  // The code
  // ------------------------------------------------------------------

  /** restore_dir: whenever its recursion ends it makes of the filesystem what it
      makes of its tree under its quota. */
  method RestoreDir(fs: Vfs, d: Depot, path: Path, addr: Addr, now: Int64, ghost n: nat) returns (ok: bool)
    requires fs.Valid() && RestoreTree(d, n, fs.quota, fs.T(), path, addr, fs.maker, now).Some?
    modifies fs
    ensures fs.Valid()
    ensures RestoreTree(d, n, fs.quota, old(fs.T()), path, addr, fs.maker, now) == Some(Restored(ok, fs.T()))
    decreases n, 0
  {
    hide Load, RestoreEntry, Vfs.Valid;
    match Load(d, addr)
    case Missing =>
      return false;
    case WrongType =>
      return false;
    case Corrupt =>
      return false;
    case Listing(dir) =>
      ghost var whole := RestoreTree(d, n, fs.quota, fs.T(), path, addr, fs.maker, now);
      assert dir[0..] == dir;
      for i := 0 to |dir|
        invariant fs.Valid()
        invariant RestoreEntries(d, n - 1, fs.quota, fs.T(), path, dir[i..], fs.maker, now) == whole
      {
        assert dir[i..][1..] == dir[i + 1..];
        ok := RestoreOne(fs, d, path, dir[i], now, n - 1);
        if !ok {
          return false;
        }
      }
      return true;
  }

  method RestoreOne(fs: Vfs, d: Depot, path: Path, e: Entry, now: Int64, ghost n: nat) returns (ok: bool)
    requires fs.Valid() && RestoreEntry(d, n, fs.quota, fs.T(), path, e, fs.maker, now).Some?
    modifies fs
    ensures fs.Valid()
    ensures RestoreEntry(d, n, fs.quota, old(fs.T()), path, e, fs.maker, now) == Some(Restored(ok, fs.T()))
    decreases n, 1
  {
    hide Load, Open, RestoreTree, Write, Mkdir, SnapPath, FileType, IsDirEntry, Vfs.Valid, OverIn, Vfs.Over;
    RegIsNotDir(e);
    var p := SnapPath(path, e.name);
    if FileType(e.mode) == S_IFREG {
      var o := Open(d, e.hash);
      if !o.Got? || o.o.kind != BLOB {
        return false;
      }
      OverIsIn(fs, p, |o.o.data|);
      var code := fs.WriteFile(p, o.o.data, true, now);
      return code.OK?;
    } else if IsDirEntry(e) {
      var code := fs.MakeDir(p, true, now);
      if !code.OK? {
        return false;
      }
      ok := RestoreDir(fs, d, p, e.hash, now, n);
    } else {
      return true;
    }
  }

  lemma {:induction false} SizeWithout(t: Tree, n: Node)
    requires n in t
    ensures Size(t) == |n.data| + Size(t - {n})
    decreases |t|
  {
    var m :| m in t && Size(t) == |m.data| + Size(t - {m});
    if m != n {
      SizeWithout(t - {m}, n);
      assert n in t - {m} && m in t - {n};
      SizeWithout(t - {n}, m);
      assert t - {m} - {n} == t - {n} - {m};
    }
  }

  lemma {:induction false} SizeIsTotal(nodes: seq<Node>)
    requires NoDup(nodes)
    ensures Size(AsTree(nodes)) == Total(nodes)
    decreases |nodes|
  {
    hide Size;
    if nodes != [] {
      var i := |nodes| - 1;
      LastApart(nodes);
      hide NoDup, AsTree;
      SizeIsTotal(nodes[..i]);
      SizeWithout(AsTree(nodes), nodes[i]);
    } else {
      assert AsTree(nodes) == {} && Size({}) == 0 by { NothingHeld(); }
    }
  }

  lemma NothingHeld()
    ensures Size({}) == 0
  {
  }

  lemma LastApart(nodes: seq<Node>)
    requires NoDup(nodes) && nodes != []
    ensures var i := |nodes| - 1;
            NoDup(nodes[..i]) && nodes[i] in AsTree(nodes) && AsTree(nodes) - {nodes[i]} == AsTree(nodes[..i])
  {
    var i := |nodes| - 1;
    assert nodes == nodes[..i] + [nodes[i]];
  }

  lemma OverIsIn(fs: Vfs, path: Path, len: nat)
    requires fs.Valid()
    ensures fs.Over(path, len) <==> OverIn(fs.T(), fs.quota, path, len)
  {
    SizeIsTotal(fs.nodes);
    hide NoDup, WellFormed, Total, Size, Wrap, Normalized;
  }

  lemma RegIsNotDir(e: Entry)
    ensures FileType(e.mode) == S_IFREG ==> !IsDirEntry(e)
  {
  }

  // ------------------------------------------------------------------
  // A depot in which no directory is inside itself
  // ------------------------------------------------------------------

  /** The ranked addresses: whatever directory one of them lists is ranked too,
      and lower. */
  ghost predicate Acyclic(d: Depot, rank: map<Addr, nat>)
  {
    forall u :: u in rank && Load(d, u).Listing? ==> Ranked(Load(d, u).dir, rank, rank[u])
  }

  ghost predicate Ranked(dir: seq<Entry>, rank: map<Addr, nat>, bound: nat)
  {
    forall e :: e in dir && IsDirEntry(e) ==> e.hash in rank && rank[e.hash] < bound
  }

  lemma ListedAreRanked(d: Depot, rank: map<Addr, nat>, addr: Addr)
    requires Acyclic(d, rank) && addr in rank && Load(d, addr).Listing?
    ensures forall e :: e in Load(d, addr).dir && IsDirEntry(e) ==> e.hash in rank && rank[e.hash] < rank[addr]
  {
    hide Load, IsDirEntry;
  }

  lemma RankedParts(dir: seq<Entry>, rank: map<Addr, nat>, bound: nat)
    requires Ranked(dir, rank, bound) && dir != []
    ensures IsDirEntry(dir[0]) ==> dir[0].hash in rank && rank[dir[0].hash] < bound
    ensures Ranked(dir[1..], rank, bound)
  {
    hide IsDirEntry;
    assert dir[0] in dir;
    assert forall e :: e in dir[1..] ==> e in dir;
  }

  /** There every restore ends, from any ranked address into any filesystem. */
  lemma {:induction false} AcyclicEnds(d: Depot, rank: map<Addr, nat>, n: nat, quota: nat, u: Tree, path: Path, addr: Addr,
        k: Maker, now: Int64)
    requires Acyclic(d, rank) && addr in rank && n > rank[addr]
    ensures RestoreTree(d, n, quota, u, path, addr, k, now).Some?
    decreases n, 0
  {
    hide Load, Ranked, RestoreEntries;
    if Load(d, addr).Listing? {
      EntriesEnd(d, rank, rank[addr], n - 1, quota, u, path, Load(d, addr).dir, k, now);
    }
  }

  lemma {:induction false} EntriesEnd(d: Depot, rank: map<Addr, nat>, bound: nat, n: nat, quota: nat, u: Tree, path: Path,
        dir: seq<Entry>, k: Maker, now: Int64)
    requires Acyclic(d, rank) && Ranked(dir, rank, bound) && n >= bound
    ensures RestoreEntries(d, n, quota, u, path, dir, k, now).Some?
    decreases n, 1, |dir|
  {
    hide Acyclic, Ranked, IsDirEntry, FileType, Write, Mkdir, OverIn, Open, SnapPath, RestoreTree;
    if dir != [] {
      RankedParts(dir, rank, bound);
      var m := Mkdir(u, SnapPath(path, dir[0].name), true, k, now);
      if IsDirEntry(dir[0]) {
        AcyclicEnds(d, rank, n, quota, m.tree, SnapPath(path, dir[0].name), dir[0].hash, k, now);
      }
      var r := RestoreEntry(d, n, quota, u, path, dir[0], k, now);
      if r.value.ok {
        EntriesEnd(d, rank, bound, n, quota, r.value.tree, path, dir[1..], k, now);
      }
    }
  }

  // ------------------------------------------------------------------
  // A stored snapshot restores to the same tree
  // ------------------------------------------------------------------

  /** A node as restoring makes it: same path, kind and contents. */
  function CopyOf(n: Node, k: Maker, now: Int64): Node
  {
    if n.dir then NewDir(n.path, k, now) else NewFile(n.path, n.data, k, now)
  }

  ghost function Copies(t: Tree, k: Maker, now: Int64): Tree { set n | n in t :: CopyOf(n, k, now) }

  predicate AtOrUnder(c: Path, p: Path) { p == c || Under(c, p) }

  /** The nodes at or below one of the entries. */
  ghost function Spread(t: Tree, d: Path, dir: seq<Entry>): Tree
  {
    set m | m in t && exists j :: 0 <= j < |dir| && AtOrUnder(Child(d, dir[j].name), m.path)
  }

  /** No node is at or below any of the entries. */
  ghost predicate Clear(u: Tree, d: Path, dir: seq<Entry>)
  {
    forall m, j :: m in u && 0 <= j < |dir| ==> !AtOrUnder(Child(d, dir[j].name), m.path)
  }

  ghost predicate PlainNames(dir: seq<Entry>)
  {
    forall i :: 0 <= i < |dir| ==> SLASH !in dir[i].name
  }

  ghost predicate ApartNames(dir: seq<Entry>)
  {
    forall i, j :: 0 <= i < j < |dir| ==> dir[i].name != dir[j].name
  }

  /** The component of p right after d. */
  function NameAfter(d: Path, p: Path): seq<byte>
  {
    if |p| <= |d| then [] else
    var s := p[|d| + 1..];
    s[..Memchr(s, SLASH)]
  }

  lemma NameAfterIs(d: Path, a: seq<byte>, p: Path)
    requires SLASH !in a && AtOrUnder(Child(d, a), p)
    ensures NameAfter(d, p) == a
  {
    var c := Child(d, a);
    var s := p[|d| + 1..];
    if p == c {
      assert s == a;
    } else {
      assert p == c + [SLASH] + p[|c| + 1..];
      assert s == a + [SLASH] + p[|c| + 1..];
      MemchrAfter(a, SLASH, p[|c| + 1..]);
    }
  }

  lemma SiblingsApart(d: Path, a: seq<byte>, b: seq<byte>, p: Path)
    requires SLASH !in a && SLASH !in b && AtOrUnder(Child(d, a), p) && AtOrUnder(Child(d, b), p)
    ensures a == b
  {
    NameAfterIs(d, a, p);
    NameAfterIs(d, b, p);
  }

  /** Writing a file in a directory that is there makes its copy and nothing else,
      unless the quota refuses it. */
  lemma WriteInPlace(u: Tree, c: Node, k: Maker, now: Int64, over: bool)
    requires WellFormed(u) && Normal(c.path) && AllowedPath(c.path) && |c.path| < PATH_MAX && !c.dir
    requires HasParent(u, c.path) && At(u, c.path).None?
    ensures Write(u, c.path, c.data, true, k, now, over)
            == if over then Outcome(Code.EQUOTA, u) else Outcome(Code.OK, u + {CopyOf(c, k, now)})
    ensures WellFormed(u + {CopyOf(c, k, now)})
  {
    hide Normal, AllowedPath, Normalized, WellFormed, MakeRoom;
    NormalIsFixed(c.path);
    NormalNotRoot(c.path);
    RoomMade(u, c.path, true, k, now);
    AddNode(u, CopyOf(c, k, now));
  }

  lemma MkdirInPlace(u: Tree, c: Node, k: Maker, now: Int64)
    requires WellFormed(u) && Normal(c.path) && AllowedPath(c.path) && |c.path| < PATH_MAX && c.dir
    requires HasParent(u, c.path) && At(u, c.path).None?
    ensures Mkdir(u, c.path, true, k, now) == Outcome(Code.OK, u + {CopyOf(c, k, now)})
    ensures WellFormed(u + {CopyOf(c, k, now)})
  {
    hide Normal, AllowedPath, Normalized, WellFormed, MakeRoom;
    NormalIsFixed(c.path);
    NormalNotRoot(c.path);
    RoomMade(u, c.path, true, k, now);
    AddNode(u, CopyOf(c, k, now));
  }

  // ------------------------------------------------------------------
  // From entries back to nodes
  // ------------------------------------------------------------------

  /** What the store holds for the snapshot, put together. */
  ghost predicate Kept(hash: HashFn, objects: map<Digest, Object>, all: set<Object>, t: Tree)
  {
    Snappable(t) && Covers(all, hash, t) && Trusted(hash, objects, all)
  }

  function AsDepot(objects: map<Digest, Object>): Depot { Depot(objects, map[]) }

  lemma EncodedOpens(objects: map<Digest, Object>, a: Digest)
    requires a in objects
    ensures Open(AsDepot(objects), HexEncode(a)) == Got(objects[a])
  {
    HexDecodeOfEncode(a);
    LowerIsHash(HexEncode(a));
    hide HexDecode, HexEncode, IsHash, IsLowerHash;
  }

  /** The directory at d loads as its listing. */
  lemma DirLoads(hash: HashFn, objects: map<Digest, Object>, all: set<Object>, t: Tree, d: Path)
    requires Kept(hash, objects, all, t) && |d| < PATH_MAX && IsDirOf(t, d) && DirPresent(hash, objects, t, d)
    ensures Load(AsDepot(objects), HexEncode(DirDigest(hash, t, d))) == Loaded.Listing(SnapListing(hash, t, d))
  {
    hide WellFormed, Short, HexEncode, ListObject, SnapListing, Canonical, Lists, EntrySet, Open, Serialize;
    var dir := SnapListing(hash, t, d);
    ListingCovered(all, hash, t, d);
    EncodedOpens(objects, DirDigest(hash, t, d));
    TextLoads(dir);
    assert ReadsAs(objects[DirDigest(hash, t, d)], ListingText(dir));
  }

  lemma TextLoads(dir: seq<Entry>)
    requires Canonical(dir)
    ensures ListObject(ListingText(dir)) == Loaded.Listing(dir)
  {
    hide Serialize, LoadText, Printable, Canonical;
    CanonicalIsPrintable(dir);
    TextRoundTrip(dir);
  }

  lemma FileOpens(hash: HashFn, objects: map<Digest, Object>, all: set<Object>, t: Tree, n: Node)
    requires Kept(hash, objects, all, t) && n in t && !n.dir && hash(BlobOf(n)) in objects
    ensures Open(AsDepot(objects), HexEncode(hash(BlobOf(n)))) == Got(BlobOf(n))
  {
    hide WellFormed, Short, HexEncode, Open, ListObject;
    EncodedOpens(objects, hash(BlobOf(n)));
  }

  /** The node an entry stands for. */
  lemma NodeOfEntry(hash: HashFn, t: Tree, d: Path, e: Entry) returns (n: Node)
    requires Snappable(t) && |d| < PATH_MAX && e in EntrySet(hash, t, d)
    ensures n in ChildSet(t, d) && EntryOf(hash, t, n) == e && e.name == Base(n.path) && n.path == Child(d, e.name) && SLASH !in e.name
    ensures e.mode == ModeOf(n)
  {
    hide EntryOf, WellFormed, Short;
    n :| n in ChildSet(t, d) && EntryOf(hash, t, n) == e;
    EntryName(hash, t, n);
    NodeIsNormal(t, n);
    NormalHasSlash(n.path);
    PathParts(n.path);
  }

  lemma ListedNames(hash: HashFn, t: Tree, d: Path, dir: seq<Entry>)
    requires Snappable(t) && |d| < PATH_MAX && Lists(dir, EntrySet(hash, t, d))
    ensures PlainNames(dir) && ApartNames(dir)
  {
    hide EntrySet, Snappable;
    forall i | 0 <= i < |dir|
      ensures SLASH !in dir[i].name
    {
      var n := NodeOfEntry(hash, t, d, dir[i]);
    }
    hide Names.Less;
    forall i, j | 0 <= i < j < |dir|
      ensures dir[i].name != dir[j].name
    {
      Names.LessIrreflexive(dir[i].name);
    }
  }

  /** The nodes below d are those at or below its entries. */
  lemma SpreadIsBelow(hash: HashFn, t: Tree, d: Path, dir: seq<Entry>)
    requires Snappable(t) && |d| < PATH_MAX && Lists(dir, EntrySet(hash, t, d))
    ensures Spread(t, d, dir) == set m | m in t && Below(d, m.path)
  {
    hide EntrySet, Under, Below, WellFormed, Short, Ascending;
    forall m | m in t && Below(d, m.path)
      ensures m in Spread(t, d, dir)
    {
      var c := ChildOnPath(t, d, m);
      EntryListed(hash, t, d, c);
      var e := EntryOf(hash, t, c);
      var j :| 0 <= j < |dir| && dir[j] == e;
      assert AtOrUnder(Child(d, dir[j].name), m.path);
    }
    forall m | m in Spread(t, d, dir)
      ensures Below(d, m.path)
    {
      var j :| 0 <= j < |dir| && AtOrUnder(Child(d, dir[j].name), m.path);
      var n := NodeOfEntry(hash, t, d, dir[j]);
      ChildIsBelow(t, d, n);
      if m.path != n.path {
        BelowChild(t, d, n, m.path);
      }
    }
  }

  lemma EntryListed(hash: HashFn, t: Tree, d: Path, c: Node)
    requires Snappable(t) && |d| < PATH_MAX && c in ChildSet(t, d)
    ensures EntryOf(hash, t, c) in EntrySet(hash, t, d)
    ensures c.path == Child(d, EntryOf(hash, t, c).name)
  {
    hide EntryOf, Short;
    ChildIsLonger(t, d, c);
    EntryName(hash, t, c);
    NormalHasSlash(c.path);
    PathParts(c.path);
  }

  // ------------------------------------------------------------------
  // The induction
  // ------------------------------------------------------------------

  /** The nodes at or below one of the entries, told one by one. */
  lemma SpreadIs(t: Tree, d: Path, dir: seq<Entry>, m: Node)
    ensures m in Spread(t, d, dir) <==> m in t && exists j :: 0 <= j < |dir| && AtOrUnder(Child(d, dir[j].name), m.path)
  {
    hide AtOrUnder, Child;
  }

  lemma AtAndBelowIs(t: Tree, c: Node, m: Node)
    ensures m in AtAndBelow(t, c) <==> m == c || (m in t && Under(c.path, m.path))
  {
    hide Under;
  }

  lemma SpreadStep(t: Tree, d: Path, dir: seq<Entry>, c: Node)
    requires WellFormed(t) && dir != [] && c in t && c.path == Child(d, dir[0].name)
    ensures Spread(t, d, dir) == AtAndBelow(t, c) + Spread(t, d, dir[1..])
  {
    hide *;
    var rest := dir[1..];
    forall m
      ensures m in Spread(t, d, dir) <==> m in AtAndBelow(t, c) || m in Spread(t, d, rest)
    {
      SpreadIs(t, d, dir, m);
      SpreadIs(t, d, rest, m);
      AtAndBelowIs(t, c, m);
      AtOrUnderIs(c.path, m.path);
      if m in t && m.path == c.path {
        SamePathSameNode(t, m, c);
      }
      if j :| 0 <= j < |rest| && AtOrUnder(Child(d, rest[j].name), m.path) {
        assert dir[j + 1] == rest[j];
      }
      if j :| 0 <= j < |dir| && AtOrUnder(Child(d, dir[j].name), m.path) {
        if j > 0 {
          assert rest[j - 1] == dir[j];
        }
      }
    }
  }

  lemma AtOrUnderIs(c: Path, p: Path)
    ensures AtOrUnder(c, p) <==> p == c || Under(c, p)
  {
    hide Under;
  }

  lemma SamePathSameNode(t: Tree, a: Node, b: Node)
    requires WellFormed(t) && a in t && b in t && a.path == b.path
    ensures a == b
  {
    hide Normal, AllowedPath;
  }

  lemma CopiesUnion(a: Tree, b: Tree, k: Maker, now: Int64)
    ensures Copies(a + b, k, now) == Copies(a, k, now) + Copies(b, k, now)
  {
    forall n | n in Copies(a, k, now) + Copies(b, k, now)
      ensures n in Copies(a + b, k, now)
    {
      var m :| m in a + b && CopyOf(m, k, now) == n;
    }
  }

  lemma CopiesOne(c: Node, k: Maker, now: Int64)
    ensures Copies({c}, k, now) == {CopyOf(c, k, now)}
  {
    assert c in {c};
  }

  lemma CopiesPath(a: Tree, k: Maker, now: Int64, n: Node) returns (m: Node)
    requires n in Copies(a, k, now)
    ensures m in a && m.path == n.path
  {
    m :| m in a && CopyOf(m, k, now) == n;
  }

  /** What an entry adds stays clear of the entries after it. */
  lemma StaysClear(u: Tree, d: Path, dir: seq<Entry>, c: Node, v: Tree)
    requires dir != [] && PlainNames(dir) && ApartNames(dir) && Clear(u, d, dir) && c.path == Child(d, dir[0].name)
    requires forall n :: n in v ==> n in u || AtOrUnder(c.path, n.path)
    ensures Clear(v, d, dir[1..]) && PlainNames(dir[1..]) && ApartNames(dir[1..])
  {
    hide Under, Child;
    var rest := dir[1..];
    assert forall j :: 0 <= j < |rest| ==> rest[j] == dir[j + 1];
    forall m, j | m in v && 0 <= j < |rest|
      ensures !AtOrUnder(Child(d, rest[j].name), m.path)
    {
      if m in u {
        assert !AtOrUnder(Child(d, dir[j + 1].name), m.path);
      } else if AtOrUnder(Child(d, rest[j].name), m.path) {
        hide AtOrUnder;
        SiblingsApart(d, dir[0].name, rest[j].name, m.path);
      }
    }
  }

  /** Room for the child at the head of the list. */
  lemma HeadRoom(u: Tree, d: Path, dir: seq<Entry>, c: Node)
    requires Clear(u, d, dir) && dir != [] && c.path == Child(d, dir[0].name) && Stem(c.path) == d && IsDirOf(u, d)
    ensures HasParent(u, c.path) && At(u, c.path).None?
    ensures forall m :: m in u ==> !Under(c.path, m.path)
  {
    hide Under;
    forall m | m in u
      ensures m.path != c.path && !Under(c.path, m.path)
    {
      assert !AtOrUnder(Child(d, dir[0].name), m.path);
    }
  }

  /** The nodes below a directory that is now empty are clear of its listing. */
  lemma EmptyIsClear(hash: HashFn, t: Tree, u: Tree, c: Node, dir: seq<Entry>)
    requires Snappable(t) && |c.path| < PATH_MAX && c.path != [] && Lists(dir, EntrySet(hash, t, c.path))
    requires forall m :: m in u ==> !Under(c.path, m.path)
    ensures Clear(u, c.path, dir)
  {
    hide EntrySet, Snappable;
    forall m, j | m in u && 0 <= j < |dir|
      ensures !AtOrUnder(Child(c.path, dir[j].name), m.path)
    {
      ChildIsUnder(c.path, dir[j].name);
      hide Under, Child;
      var q := Child(c.path, dir[j].name);
      if AtOrUnder(q, m.path) && m.path != q {
        UnderTransitive(c.path, q, m.path);
      }
    }
  }

  lemma ChildIsUnder(d: Path, name: seq<byte>)
    ensures Under(d, Child(d, name))
  {
  }

  lemma SnapPathIs(d: Path, name: seq<byte>)
    requires (d != [] ==> d != ROOT) && |Child(d, name)| < PATH_MAX
    ensures SnapPath(PathOf(d), name) == Child(d, name)
  {
  }

  /** The quota with so much held and so much to come. */
  predicate Room(quota: nat, held: nat, more: nat) { quota == 0 || held + more <= quota }

  /** What is held is within the quota, and the 64-bit sums do not wrap. */
  predicate Counts(quota: nat, held: nat, more: nat) { quota == 0 || (held <= quota && held + more < U64) }

  /** A restore that made these nodes, or had no room for them. */
  ghost predicate Made(r: Option<Restored>, quota: nat, u: Tree, nodes: Tree, k: Maker, now: Int64)
  {
    && r.Some? && (r.value.ok ==> r.value.tree == u + Copies(nodes, k, now) && WellFormed(r.value.tree))
    && (Counts(quota, Size(u), Size(nodes)) ==> (r.value.ok <==> Room(quota, Size(u), Size(nodes))))
  }

  /** Restoring the entries of a stored directory where there are none of their
      nodes adds exactly a copy of every node at or below them, or fails for want
      of room. */
  lemma {:induction false} RestoresEntries(hash: HashFn, objects: map<Digest, Object>, all: set<Object>, t: Tree,
        n: nat, quota: nat, u: Tree, d: Path, dir: seq<Entry>, k: Maker, now: Int64)
    requires Kept(hash, objects, all, t) && |d| < PATH_MAX && IsDirOf(t, d) && n + |d| + 1 >= PATH_MAX
    requires forall x :: x in t && Below(d, x.path) ==> NodePresent(hash, objects, t, x)
    requires forall e :: e in dir ==> e in EntrySet(hash, t, d)
    requires PlainNames(dir) && ApartNames(dir) && WellFormed(u) && IsDirOf(u, d) && Clear(u, d, dir)
    ensures Made(RestoreEntries(AsDepot(objects), n, quota, u, PathOf(d), dir, k, now), quota, u, Spread(t, d, dir), k, now)
    decreases PATH_MAX - |d|, 1, |dir|
  {
    hide *;
    EntriesAre(AsDepot(objects), n, quota, u, PathOf(d), dir, k, now);
    if dir == [] {
      NothingSpread(t, d);
      NothingRestored(quota, u, k, now);
    } else {
      KeptParts(hash, objects, all, t);
      assert dir[0] in dir;
      var c := RestoresEntry(hash, objects, all, t, n, quota, u, d, dir, k, now);
      assert forall e :: e in dir[1..] ==> e in dir;
      var first := RestoreEntry(AsDepot(objects), n, quota, u, PathOf(d), dir[0], k, now);
      MadeParts(first, quota, u, AtAndBelow(t, c), k, now);
      SpreadStep(t, d, dir, c);
      SpreadSize(t, d, dir, c);
      if first.value.ok {
        var v := u + Copies(AtAndBelow(t, c), k, now);
        AddedAreBelow(t, u, c, k, now);
        StaysClear(u, d, dir, c, v);
        DirStays(u, v, d);
        HeadSize(t, u, d, dir, c, k, now);
        RestoresEntries(hash, objects, all, t, n, quota, v, d, dir[1..], k, now);
        MadeTogether(quota, u, v, AtAndBelow(t, c), Spread(t, d, dir[1..]), Spread(t, d, dir), k, now,
                     RestoreEntries(AsDepot(objects), n, quota, v, PathOf(d), dir[1..], k, now));
      } else {
        NoRoomForMore(quota, u, AtAndBelow(t, c), Spread(t, d, dir), k, now, first);
      }
    }
  }

  lemma EntriesAre(d: Depot, n: nat, quota: nat, u: Tree, path: Path, dir: seq<Entry>, k: Maker, now: Int64)
    ensures RestoreEntries(d, n, quota, u, path, dir, k, now)
            == if dir == [] then Some(Restored(true, u))
               else
                 var r := RestoreEntry(d, n, quota, u, path, dir[0], k, now);
                 if r.None? || !r.value.ok then r else RestoreEntries(d, n, quota, r.value.tree, path, dir[1..], k, now)
  {
    hide RestoreEntry;
  }

  lemma KeptParts(hash: HashFn, objects: map<Digest, Object>, all: set<Object>, t: Tree)
    requires Kept(hash, objects, all, t)
    ensures Snappable(t) && WellFormed(t)
  {
    hide WellFormed, Short, Covers, Trusted;
  }

  /** A node and all nodes below it. */
  ghost function AtAndBelow(t: Tree, c: Node): Tree { {c} + set m | m in t && Under(c.path, m.path) }

  lemma NothingRestored(quota: nat, u: Tree, k: Maker, now: Int64)
    requires WellFormed(u)
    ensures Made(Some(Restored(true, u)), quota, u, {}, k, now)
  {
    hide WellFormed;
    assert Copies({}, k, now) == {} && u + {} == u && Size({}) == 0;
  }

  lemma AddedAreBelow(t: Tree, u: Tree, c: Node, k: Maker, now: Int64)
    ensures forall x :: x in u + Copies(AtAndBelow(t, c), k, now) ==> x in u || AtOrUnder(c.path, x.path)
  {
    hide Under, Copies;
    forall x | x in Copies(AtAndBelow(t, c), k, now)
      ensures AtOrUnder(c.path, x.path)
    {
      var m := CopiesPath(AtAndBelow(t, c), k, now, x);
    }
  }

  lemma {:induction false} SizeUnion(a: Tree, b: Tree)
    requires a !! b
    ensures Size(a + b) == Size(a) + Size(b)
    decreases |b|
  {
    if b == {} {
      assert a + b == a;
    } else {
      var n :| n in b;
      SizeWithout(b, n);
      SizeWithout(a + b, n);
      assert a + b - {n} == a + (b - {n});
      SizeUnion(a, b - {n});
    }
  }

  /** Copies hold what their originals do. */
  lemma {:induction false} CopiesSize(t: Tree, a: Tree, k: Maker, now: Int64)
    requires WellFormed(t) && a <= t
    ensures Size(Copies(a, k, now)) == Size(a)
    decreases |a|
  {
    hide WellFormed, Copies;
    if a == {} {
      NoCopies(k, now);
    } else {
      var n :| n in a;
      var rest := a - {n};
      CopiesSize(t, rest, k, now);
      SizeWithout(a, n);
      assert a == rest + {n};
      CopiesUnion(rest, {n}, k, now);
      CopiesOne(n, k, now);
      DirHoldsNothing(t, n);
      CopyIsNew(t, rest, n, k, now);
      SizeWithout(Copies(a, k, now), CopyOf(n, k, now));
      assert Copies(a, k, now) - {CopyOf(n, k, now)} == Copies(rest, k, now);
    }
  }

  lemma NoCopies(k: Maker, now: Int64)
    ensures Copies({}, k, now) == {}
  {
  }

  lemma CopyIsNew(t: Tree, rest: Tree, n: Node, k: Maker, now: Int64)
    requires WellFormed(t) && rest <= t && n in t && n !in rest
    ensures CopyOf(n, k, now) !in Copies(rest, k, now)
  {
    hide WellFormed, Copies;
    if CopyOf(n, k, now) in Copies(rest, k, now) {
      var m := CopiesPath(rest, k, now, CopyOf(n, k, now));
      SamePathSameNode(t, m, n);
    }
  }

  lemma DirHoldsNothing(t: Tree, n: Node)
    requires WellFormed(t) && n in t
    ensures n.dir ==> n.data == []
  {
    hide Normal, AllowedPath;
  }

  lemma ClearHead(u: Tree, d: Path, dir: seq<Entry>)
    requires Clear(u, d, dir) && dir != []
    ensures forall m :: m in u ==> !AtOrUnder(Child(d, dir[0].name), m.path)
  {
    hide AtOrUnder, Child;
  }

  lemma HeadSize(t: Tree, u: Tree, d: Path, dir: seq<Entry>, c: Node, k: Maker, now: Int64)
    requires WellFormed(t) && c in t && dir != [] && c.path == Child(d, dir[0].name) && Clear(u, d, dir)
    ensures Size(u + Copies(AtAndBelow(t, c), k, now)) == Size(u) + Size(AtAndBelow(t, c))
  {
    hide WellFormed, Under, Copies, Child, Size;
    CopiesSize(t, AtAndBelow(t, c), k, now);
    ClearHead(u, d, dir);
    forall x | x in Copies(AtAndBelow(t, c), k, now)
      ensures x !in u
    {
      var m := CopiesPath(AtAndBelow(t, c), k, now, x);
    }
    SizeUnion(u, Copies(AtAndBelow(t, c), k, now));
  }

  lemma SpreadSize(t: Tree, d: Path, dir: seq<Entry>, c: Node)
    requires dir != [] && PlainNames(dir) && ApartNames(dir) && c.path == Child(d, dir[0].name)
    requires Spread(t, d, dir) == AtAndBelow(t, c) + Spread(t, d, dir[1..])
    ensures Size(Spread(t, d, dir)) == Size(AtAndBelow(t, c)) + Size(Spread(t, d, dir[1..]))
  {
    hide Under, Child, Size, AtOrUnder;
    var rest := dir[1..];
    forall m | m in AtAndBelow(t, c) && m in Spread(t, d, rest)
      ensures false
    {
      AtOrUnderIs(c.path, m.path);
      var j :| 0 <= j < |rest| && AtOrUnder(Child(d, rest[j].name), m.path);
      assert rest[j] == dir[j + 1];
      SiblingsApart(d, dir[0].name, dir[j + 1].name, m.path);
    }
    SizeUnion(AtAndBelow(t, c), Spread(t, d, rest));
  }

  lemma MadeParts(r: Option<Restored>, quota: nat, u: Tree, nodes: Tree, k: Maker, now: Int64)
    requires Made(r, quota, u, nodes, k, now)
    ensures r.Some? && (r.value.ok ==> r.value.tree == u + Copies(nodes, k, now) && WellFormed(r.value.tree))
    ensures Counts(quota, Size(u), Size(nodes)) ==> (r.value.ok <==> Room(quota, Size(u), Size(nodes)))
  {
    hide Copies, Size, WellFormed;
  }

  lemma MadeTogether(quota: nat, u: Tree, v: Tree, a: Tree, b: Tree, whole: Tree, k: Maker, now: Int64, r: Option<Restored>)
    requires v == u + Copies(a, k, now) && Size(v) == Size(u) + Size(a) && Made(r, quota, v, b, k, now)
    requires whole == a + b && Size(whole) == Size(a) + Size(b)
    requires Counts(quota, Size(u), Size(a)) ==> Room(quota, Size(u), Size(a))
    ensures Made(r, quota, u, whole, k, now)
  {
    CopiesUnion(a, b, k, now);
    hide Copies, Size, WellFormed;
    assert v + Copies(b, k, now) == u + Copies(whole, k, now);
  }

  lemma NoRoomForMore(quota: nat, u: Tree, a: Tree, whole: Tree, k: Maker, now: Int64, r: Option<Restored>)
    requires Made(r, quota, u, a, k, now) && r.Some? && !r.value.ok && Size(whole) >= Size(a)
    ensures Made(r, quota, u, whole, k, now)
  {
    hide Copies, Size, WellFormed;
  }

  lemma NothingSpread(t: Tree, d: Path)
    ensures Spread(t, d, []) == {}
  {
  }

  lemma DirStays(u: Tree, v: Tree, d: Path)
    requires IsDirOf(u, d) && u <= v
    ensures IsDirOf(v, d)
  {
    if d != [] {
      var m :| m in u && m.path == d && m.dir;
      assert m in v;
    }
  }

  /** One entry: its node's copy, and with it a copy of everything below. */
  lemma {:induction false} RestoresEntry(hash: HashFn, objects: map<Digest, Object>, all: set<Object>, t: Tree,
        n: nat, quota: nat, u: Tree, d: Path, dir: seq<Entry>, k: Maker, now: Int64) returns (c: Node)
    requires Kept(hash, objects, all, t) && |d| < PATH_MAX && IsDirOf(t, d) && n + |d| + 1 >= PATH_MAX
    requires forall x :: x in t && Below(d, x.path) ==> NodePresent(hash, objects, t, x)
    requires dir != [] && dir[0] in EntrySet(hash, t, d)
    requires PlainNames(dir) && ApartNames(dir) && WellFormed(u) && IsDirOf(u, d) && Clear(u, d, dir)
    ensures c in t && c.path == Child(d, dir[0].name)
    ensures var r := RestoreEntry(AsDepot(objects), n, quota, u, PathOf(d), dir[0], k, now);
            Made(r, quota, u, AtAndBelow(t, c), k, now)
    decreases PATH_MAX - |d|, 1, 0
  {
    hide *;
    KeptParts(hash, objects, all, t);
    var e := dir[0];
    assert e in dir;
    c := NodeOfEntry(hash, t, d, e);
    ChildOf(t, d, c);
    ChildIsBelow(t, d, c);
    assert NodePresent(hash, objects, t, c);
    NodeParts(t, c);
    HeadRoom(u, d, dir, c);
    ModeTells(c);
    DirFits(t, d);
    SnapPathIs(d, e.name);
    EntryHash(hash, t, c);
    EntryIs(AsDepot(objects), n, quota, u, PathOf(d), e, c, k, now);
    if !c.dir {
      PresentFile(hash, objects, t, c);
      FileOpens(hash, objects, all, t, c);
      WriteInPlace(u, c, k, now, OverIn(u, quota, c.path, |c.data|));
      RestoresFile(t, quota, u, d, dir, c, k, now);
    } else {
      MkdirInPlace(u, c, k, now);
      RestoresBelow(hash, objects, all, t, n, quota, u, d, c, k, now);
      DirWithBelow(t, quota, u, d, dir, c, k, now,
                   RestoreTree(AsDepot(objects), n, quota, u + {CopyOf(c, k, now)}, c.path, e.hash, k, now));
    }
  }

  /** What an entry of a node does. */
  lemma EntryIs(d: Depot, n: nat, quota: nat, u: Tree, path: Path, e: Entry, c: Node, k: Maker, now: Int64)
    requires SnapPath(path, e.name) == c.path && e.mode == ModeOf(c) && FileType(e.mode) == if c.dir then S_IFDIR else S_IFREG
    ensures !c.dir && Open(d, e.hash) == Got(BlobOf(c)) ==>
              var w := Write(u, c.path, c.data, true, k, now, OverIn(u, quota, c.path, |c.data|));
              RestoreEntry(d, n, quota, u, path, e, k, now) == Some(Restored(w.code.OK?, w.tree))
    ensures c.dir ==>
              var m := Mkdir(u, c.path, true, k, now);
              RestoreEntry(d, n, quota, u, path, e, k, now)
              == if !m.code.OK? then Some(Restored(false, m.tree)) else RestoreTree(d, n, quota, m.tree, c.path, e.hash, k, now)
  {
    hide Open, Write, Mkdir, OverIn, SnapPath, RestoreTree, FileType, ModeOf;
  }

  lemma RestoresFile(t: Tree, quota: nat, u: Tree, d: Path, dir: seq<Entry>, c: Node, k: Maker, now: Int64)
    requires WellFormed(t) && WellFormed(u) && c in t && !c.dir && Normal(c.path) && |c.path| < PATH_MAX && At(u, c.path).None?
    requires dir != [] && c.path == Child(d, dir[0].name) && Clear(u, d, dir)
    requires WellFormed(u + {CopyOf(c, k, now)})
    ensures var over := OverIn(u, quota, c.path, |c.data|);
            Made(Some(Restored(!over, if over then u else u + {CopyOf(c, k, now)})), quota, u, AtAndBelow(t, c), k, now)
  {
    hide *;
    NormalIsFixed(c.path);
    AloneInFile(t, c);
    CopiesOne(c, k, now);
    ClearHead(u, d, dir);
    FileSize(u, c, d, dir[0].name, k, now);
    FileMade(quota, u, c, k, now);
  }

  lemma AloneInFile(t: Tree, c: Node)
    requires WellFormed(t) && c in t && !c.dir
    ensures AtAndBelow(t, c) == {c}
  {
    NoneBelowFile(t, c);
    hide Under, WellFormed;
  }

  lemma FileSize(u: Tree, c: Node, d: Path, name: seq<byte>, k: Maker, now: Int64)
    requires c.path == Child(d, name) && !c.dir && forall m :: m in u ==> !AtOrUnder(Child(d, name), m.path)
    ensures Size({c}) == |c.data| && Size(u + {CopyOf(c, k, now)}) == Size(u) + |c.data|
  {
    hide Under, Child;
    SizeWithout({c}, c);
    assert {c} - {c} == {};
    var x := CopyOf(c, k, now);
    assert x.path == c.path && x.data == c.data;
    SizeWithout(u + {x}, x);
    assert u + {x} - {x} == u;
  }

  lemma FileMade(quota: nat, u: Tree, c: Node, k: Maker, now: Int64)
    requires !c.dir && Normalized(c.path) == Some(c.path) && At(u, c.path).None? && Size({c}) == |c.data|
    requires Copies({c}, k, now) == {CopyOf(c, k, now)} && WellFormed(u) && WellFormed(u + {CopyOf(c, k, now)})
    ensures var over := OverIn(u, quota, c.path, |c.data|);
            Made(Some(Restored(!over, if over then u else u + {CopyOf(c, k, now)})), quota, u, {c}, k, now)
  {
    hide WellFormed, Normalized, Copies, Size, At;
  }

  /** A directory made, with what came of filling it. */
  lemma DirWithBelow(t: Tree, quota: nat, u: Tree, d: Path, dir: seq<Entry>, c: Node, k: Maker, now: Int64, r: Option<Restored>)
    requires WellFormed(t) && c in t && c.dir && Clear(u, d, dir) && dir != [] && c.path == Child(d, dir[0].name)
    requires Made(r, quota, u + {CopyOf(c, k, now)}, (set m | m in t && Under(c.path, m.path)), k, now)
    ensures Made(r, quota, u, AtAndBelow(t, c), k, now)
  {
    var below := set m | m in t && Under(c.path, m.path);
    var v := u + {CopyOf(c, k, now)};
    NotUnderItself(c.path);
    assert {c} !! below;
    SizeUnion({c}, below);
    SizeWithout({c}, c);
    DirHoldsNothing(t, c);
    assert {c} - {c} == {};
    CopiesOne(c, k, now);
    ClearHead(u, d, dir);
    hide Under, WellFormed, Copies, Clear;
    SizeWithout(v, CopyOf(c, k, now));
    assert v - {CopyOf(c, k, now)} == u;
    MadeTogether(quota, u, v, {c}, below, AtAndBelow(t, c), k, now, r);
  }

  lemma NodeParts(t: Tree, c: Node)
    requires Snappable(t) && c in t
    ensures Normal(c.path) && AllowedPath(c.path) && |c.path| < PATH_MAX && c.path != [] && |c.path| > |Stem(c.path)|
  {
    NormalNotRoot(c.path);
    NormalHasSlash(c.path);
  }

  lemma EntryHash(hash: HashFn, t: Tree, c: Node)
    requires Snappable(t) && c in t
    ensures EntryOf(hash, t, c).hash == HexEncode(if c.dir then DirDigest(hash, t, c.path) else hash(BlobOf(c)))
  {
    hide DirDigest, HexEncode;
  }

  lemma PresentFile(hash: HashFn, objects: map<Digest, Object>, t: Tree, c: Node)
    requires Snappable(t) && c in t && NodePresent(hash, objects, t, c)
    ensures !c.dir ==> hash(BlobOf(c)) in objects
    ensures c.dir ==> DirPresent(hash, objects, t, c.path)
  {
    hide DirPresent;
  }

  lemma NoneBelowFile(t: Tree, c: Node)
    requires WellFormed(t) && c in t && !c.dir
    ensures (set m | m in t && Under(c.path, m.path)) == {}
  {
    FileIsLeaf(t, c);
    hide Under;
  }

  /** A directory just made, filled from its own listing. */
  lemma {:induction false} RestoresBelow(hash: HashFn, objects: map<Digest, Object>, all: set<Object>, t: Tree,
        n: nat, quota: nat, u: Tree, d: Path, c: Node, k: Maker, now: Int64)
    requires Kept(hash, objects, all, t) && |d| < PATH_MAX && c in ChildSet(t, d) && c.dir && n + |c.path| >= PATH_MAX
    requires forall x :: x in t && Below(d, x.path) ==> NodePresent(hash, objects, t, x)
    requires WellFormed(u + {CopyOf(c, k, now)}) && (forall m :: m in u ==> !Under(c.path, m.path))
    requires |d| < |c.path| < PATH_MAX && c.path != []
    ensures Made(RestoreTree(AsDepot(objects), n, quota, u + {CopyOf(c, k, now)}, c.path, HexEncode(DirDigest(hash, t, c.path)), k, now),
                 quota, u + {CopyOf(c, k, now)}, (set m | m in t && Under(c.path, m.path)), k, now)
    decreases PATH_MAX - |d|, 0, 0
  {
    hide *;
    KeptParts(hash, objects, all, t);
    ChildOf(t, d, c);
    var v := u + {CopyOf(c, k, now)};
    ChildIsBelow(t, d, c);
    assert NodePresent(hash, objects, t, c);
    PresentFile(hash, objects, t, c);
    ItIsDir(t, c);
    DirLoads(hash, objects, all, t, c.path);
    var dir := SnapListing(hash, t, c.path);
    PresentListing(hash, objects, t, c.path);
    ListedNames(hash, t, c.path, dir);
    JustMade(t, u, c, k, now);
    EmptyIsClear(hash, t, v, c, dir);
    forall x | x in t && Below(c.path, x.path)
      ensures NodePresent(hash, objects, t, x)
    {
      BelowOne(c.path, x.path);
      BelowChild(t, d, c, x.path);
    }
    DirFits(t, c.path);
    PathOfDir(c.path);
    RestoresEntries(hash, objects, all, t, n - 1, quota, v, c.path, dir, k, now);
    SpreadIsBelow(hash, t, c.path, dir);
    BelowIsUnder(t, c.path);
    TreeIs(AsDepot(objects), n, quota, v, c.path, HexEncode(DirDigest(hash, t, c.path)), dir, k, now);
  }

  lemma TreeIs(d: Depot, n: nat, quota: nat, u: Tree, path: Path, addr: Addr, dir: seq<Entry>, k: Maker, now: Int64)
    requires n > 0 && Load(d, addr) == Loaded.Listing(dir)
    ensures RestoreTree(d, n, quota, u, path, addr, k, now) == RestoreEntries(d, n - 1, quota, u, path, dir, k, now)
  {
    hide Load, RestoreEntries;
  }

  lemma ItIsDir(t: Tree, c: Node)
    requires c in t && c.dir
    ensures IsDirOf(t, c.path)
  {
  }

  lemma PresentListing(hash: HashFn, objects: map<Digest, Object>, t: Tree, d: Path)
    requires Snappable(t) && |d| < PATH_MAX && DirPresent(hash, objects, t, d)
    ensures Lists(SnapListing(hash, t, d), EntrySet(hash, t, d))
    ensures forall e :: e in SnapListing(hash, t, d) ==> e in EntrySet(hash, t, d)
  {
    hide Snappable, SnapListing, EntrySet, Canonical, DirDigest, Ascending;
  }

  lemma JustMade(t: Tree, u: Tree, c: Node, k: Maker, now: Int64)
    requires c.dir && forall m :: m in u ==> !Under(c.path, m.path)
    ensures IsDirOf(u + {CopyOf(c, k, now)}, c.path)
    ensures forall m :: m in u + {CopyOf(c, k, now)} ==> !Under(c.path, m.path)
  {
    NotUnderItself(c.path);
    assert CopyOf(c, k, now) in u + {CopyOf(c, k, now)};
    hide Under;
  }

  lemma BelowOne(c: Path, p: Path)
    ensures c != [] ==> (Below(c, p) <==> Under(c, p))
  {
    hide Under;
  }

  lemma PathOfDir(p: Path)
    ensures p != [] ==> PathOf(p) == p
  {
  }

  lemma BelowIsUnder(t: Tree, c: Path)
    requires c != []
    ensures (set m | m in t && Below(c, m.path)) == set m | m in t && Under(c, m.path)
  {
    hide Under;
  }

  /** vfs_snap_restore of what vfs_snap_store stored, into an empty filesystem: it
      ends, what it restores are the same paths, kinds and contents, and it
      succeeds exactly when the quota has room for them. */
  lemma RestoreGivesBack(hash: HashFn, objects: map<Digest, Object>, all: set<Object>, t: Tree, n: nat, quota: nat,
        k: Maker, now: Int64)
    requires Kept(hash, objects, all, t) && Present(hash, objects, t, []) && n >= PATH_MAX
    ensures var r := RestoreTree(AsDepot(objects), n, quota, {}, ROOT, HexEncode(DirDigest(hash, t, [])), k, now);
            && r.Some? && (r.value.ok ==> r.value.tree == Copies(t, k, now))
            && (quota == 0 || Size(t) < U64 ==> (r.value.ok <==> quota == 0 || Size(t) <= quota))
  {
    hide *;
    KeptParts(hash, objects, all, t);
    RootPresent(hash, objects, t);
    DirLoads(hash, objects, all, t, []);
    var dir := SnapListing(hash, t, []);
    PresentListing(hash, objects, t, []);
    ListedNames(hash, t, [], dir);
    EmptyTree([], dir);
    RestoresEntries(hash, objects, all, t, n - 1, quota, {}, [], dir, k, now);
    SpreadIsBelow(hash, t, [], dir);
    TreeIs(AsDepot(objects), n, quota, {}, ROOT, HexEncode(DirDigest(hash, t, [])), dir, k, now);
    MadeFromNothing(t, quota, k, now, RestoreEntries(AsDepot(objects), n - 1, quota, {}, ROOT, dir, k, now));
  }

  lemma RootPresent(hash: HashFn, objects: map<Digest, Object>, t: Tree)
    requires Snappable(t) && Present(hash, objects, t, [])
    ensures 0 < PATH_MAX && DirPresent(hash, objects, t, []) && IsDirOf(t, []) && PathOf([]) == ROOT
    ensures forall x :: x in t && Below([], x.path) ==> NodePresent(hash, objects, t, x)
    ensures (set m | m in t && Below([], m.path)) == t
  {
    hide Snappable, DirPresent, NodePresent;
  }

  lemma MadeFromNothing(t: Tree, quota: nat, k: Maker, now: Int64, r: Option<Restored>)
    requires Made(r, quota, {}, t, k, now)
    ensures r.Some? && (r.value.ok ==> r.value.tree == Copies(t, k, now))
    ensures quota == 0 || Size(t) < U64 ==> (r.value.ok <==> quota == 0 || Size(t) <= quota)
  {
    hide Copies, WellFormed;
    assert {} + Copies(t, k, now) == Copies(t, k, now);
    assert Size({}) == 0;
  }

  lemma EmptyTree(d: Path, dir: seq<Entry>)
    ensures WellFormed({}) && Clear({}, d, dir) && IsDirOf({}, [])
  {
  }

  /** vfs_snap_store, then vfs_snap_restore from the resulting store into another,
      empty filesystem.  Whenever the store ends: it refuses the tree, exactly
      because some node is not accepted, or the restore gives it back, exactly
      when the target's quota has room for it. */
  method StoreThenRestore(fs: Vfs, st: Store, useHtree: bool, target: Vfs, now: Int64, ghost n: nat, ghost all: set<Object>)
    returns (stored: bool, ok: bool)
    requires fs.Valid() && Ready(st.hash, st.objects, all, Brief(fs.T()), useHtree) && Snaps(fs.nodes, ROOT, n).Some?
    requires target.Valid() && target.T() == {} && target != fs
    modifies st, target
    ensures target.Valid()
    ensures stored <==> AllAccepted(fs.T())
    ensures ok ==> stored && target.T() == Copies(fs.T(), target.maker, now)
    ensures target.quota == 0 || Size(fs.T()) < U64 ==>
              (ok <==> stored && (target.quota == 0 || Size(fs.T()) <= target.quota))
  {
    hide *;
    ghost var t, before := fs.T(), st.objects;
    var root := SnapStore(fs, st, useHtree, n, all);
    if root.None? {
      return false, false;
    }
    StillReady(st.hash, before, st.objects, all, Brief(t), useHtree);
    ReadyIsKept(st.hash, st.objects, all, t, useHtree);
    RestoreGivesBack(st.hash, st.objects, all, t, PATH_MAX, target.quota, target.maker, now);
    ok := RestoreDir(target, AsDepot(st.objects), ROOT, HexEncode(root.value), now, PATH_MAX);
    stored := true;
  }

  lemma ReadyIsKept(hash: HashFn, objects: map<Digest, Object>, all: set<Object>, t: Tree, useHtree: bool)
    requires Ready(hash, objects, all, t, useHtree)
    ensures Kept(hash, objects, all, t)
  {
    hide Snappable, Covers, Trusted, FormsFit, NoClash;
  }
}
