/** Where the recursion of the snapshot code has no end, and where it seems not to
    but has (vfs-snap.c: snap_dir, restore_dir). */
module SnapEndless {
  import opened Bytes
  import Names
  import opened Entries
  import opened TreeText
  import opened Objects
  import opened Directory
  import opened Depots
  import opened VfsPath
  import opened VfsTree
  import opened Vfs
  import opened SnapSpec
  import opened Snap
  import opened Restore
  import Preserve
  import L = SnapLimits

  // ------------------------------------------------------------------
  // Storing
  // ------------------------------------------------------------------

  /** Cut to 4095 bytes this path ends in a dot. */
  function DotPath(d: Path): Path { Child(d, [DOT, L.X]) }

  /** A child under an allowed name of an allowed directory. */
  lemma AllowedChild(d: Path, name: seq<byte>)
    requires AllowedPath(d) && AllowedPath(name) && Allowed(SLASH)
    ensures AllowedPath(Child(d, name)) && |Child(d, name)| == |d| + 1 + |name|
  {
    hide Allowed;
  }

  lemma TwoBytes()
    ensures AllowedPath([DOT, L.X]) && AllowedPath(XX) && Allowed(SLASH) && |[DOT, L.X]| == |XX| == 2
    ensures Component([DOT, L.X]) && Component(XX) && SLASH !in [DOT, L.X] && SLASH !in XX
  {
  }

  lemma DotPathNormal(d: Path)
    requires Normal(d) && AllowedPath(d)
    ensures Normal(DotPath(d)) && AllowedPath(DotPath(d)) && Stem(DotPath(d)) == d && |DotPath(d)| == |d| + 3
  {
    hide Normal, AllowedPath, Stem, Base, Component, Allowed;
    TwoBytes();
    AllowedChild(d, [DOT, L.X]);
    ChildParts(d, [DOT, L.X]);
    NormalChild(d, [DOT, L.X]);
  }

  lemma DotPathCut(d: Path)
    requires |d| == PATH_MAX - 3
    ensures |DotPath(d)| == PATH_MAX && Base(Cut(DotPath(d))) == [DOT]
  {
    ChildParts(d, [DOT]);
    hide Base, Stem;
    assert Cut(DotPath(d)) == Child(d, [DOT]);
  }

  lemma DotPathParts(u: seq<Node>, d: Path)
    requires L.Chain(u, d) && d != [] && |d| == PATH_MAX - 3
    ensures Normal(DotPath(d)) && AllowedPath(DotPath(d)) && Stem(DotPath(d)) == d && |DotPath(d)| == PATH_MAX
    ensures LeadsBack(L.Dir(DotPath(d)))
  {
    hide WellFormed, NoDup, Accepted, Normal, AllowedPath, Base, Stem, Cut, DotPath, IsDirOf;
    DotPathNormal(d);
    DotPathCut(d);
  }

  /** There is a tree, within the limits but for one directory named .x, of which
      storing never ends: .x is listed as the directory it is in. */
  lemma StoringMayNeverEnd()
    ensures exists nodes :: NoDup(nodes) && WellFormed(AsTree(nodes)) && forall n :: Snaps(nodes, ROOT, n).None?
  {
    hide L.Chain, Snaps, AllAccepted, NoDup, WellFormed, LeadsBack, Accepted, DotPath, Normal, AllowedPath, IsDirOf, Stem;
    var v, e := L.Deep(15);
    var u, d := L.Lengthen(v, e, 252);
    DotPathParts(u, d);
    var c := L.Dir(DotPath(d));
    ChainIs(u, d, c.path);
    L.AddedDir(u, c.path);
    var nodes := u + [c];
    forall x | x in nodes
      ensures Accepted(x) || LeadsBack(x)
    {
      L.ChainParts(u, d);
    }
    NotAllAccepted(nodes, c);
    StoringEndsIff(nodes);
    forall n
      ensures Snaps(nodes, ROOT, n).None?
    {
      assert !Snaps(nodes, ROOT, n).Some?;
    }
  }

  lemma ChainIs(u: seq<Node>, d: Path, p: Path)
    requires L.Chain(u, d) && |p| > |d|
    ensures NoDup(u) && WellFormed(AsTree(u)) && IsDirOf(AsTree(u), d) && forall n :: n in u ==> n.path != p
  {
    hide WellFormed, NoDup, IsDirOf, Accepted;
  }

  lemma NotAllAccepted(nodes: seq<Node>, c: Node)
    requires c in nodes && |c.path| >= PATH_MAX
    ensures !AllAccepted(AsTree(nodes))
  {
    hide Names.ValidName;
    assert c in AsTree(nodes) && !Accepted(c);
  }

  // ------------------------------------------------------------------
  // Restoring a directory that lists itself
  // ------------------------------------------------------------------

  const DEEPEST: nat := 1365

  const XX: seq<byte> := [0x78, 0x78]
  const XA: seq<byte> := [0x78, 0x61]

  /** /xx/xx/... */
  function Nested(j: nat): Path { if j == 0 then [] else Child(Nested(j - 1), XX) }

  lemma {:induction false} NestedParts(j: nat)
    ensures |Nested(j)| == 3 * j && AllowedPath(Nested(j)) && (j > 0 ==> Normal(Nested(j)) && Stem(Nested(j)) == Nested(j - 1))
    decreases j
  {
    hide Nested;
    NestedStep(j);
    if j > 0 {
      NestedParts(j - 1);
      OneMore(Nested(j - 1));
    }
  }

  lemma OneMore(d: Path)
    requires (d == [] || Normal(d)) && AllowedPath(d)
    ensures var p := Child(d, XX); |p| == |d| + 3 && AllowedPath(p) && Normal(p) && Stem(p) == d
  {
    hide Normal, AllowedPath, Stem, Base, Component, Allowed;
    TwoBytes();
    AllowedChild(d, XX);
    ChildParts(d, XX);
    NormalChild(d, XX);
  }

  lemma NestedStep(j: nat)
    ensures Nested(j) == if j == 0 then [] else Child(Nested(j - 1), XX)
  {
  }

  /** The path of a two-letter entry, at the limit the path of its own directory. */
  lemma NextPath(j: nat, name: seq<byte>)
    requires j <= DEEPEST && |name| == 2
    ensures SnapPath(PathOf(Nested(j)), name) == if j < DEEPEST then Child(Nested(j), name) else Nested(j)
  {
    NestedParts(j);
    hide Nested, Normal;
    if j > 0 {
      NormalNotRoot(Nested(j));
    }
    var p := Nested(j);
    if j == DEEPEST {
      assert Child(p, name)[..PATH_MAX - 1] == p;
    }
  }

  ghost predicate OnlyDirs(u: Tree) { forall n :: n in u ==> n.dir }

  /** A directory that is there, or whose parent is, among directories alone. */
  lemma MadeAmongDirs(u: Tree, p: Path, k: Maker, now: Int64)
    requires WellFormed(u) && OnlyDirs(u) && Normal(p) && AllowedPath(p) && |p| < PATH_MAX
    requires IsDirOf(u, Stem(p)) || DirAt(u, p)
    ensures var r := Mkdir(u, p, true, k, now);
            r.code.OK? && WellFormed(r.tree) && OnlyDirs(r.tree) && DirAt(r.tree, p)
  {
    MkdirKeeps(u, p, true, k, now);
    hide Normal, AllowedPath, WellFormed, MakeRoom, Normalized;
    NormalIsFixed(p);
    NormalNotRoot(p);
    if IsDirOf(u, Stem(p)) {
      RoomMade(u, p, true, k, now);
    }
    var r := Mkdir(u, p, true, k, now);
    forall n | n in r.tree
      ensures n.dir
    {
      if n !in u {
        assert n in r.tree - u;
      }
    }
  }

  /** A directory whose one entry is itself: each level ends with the one below it,
      and below the longest path is that path again. */
  lemma {:induction false} NeverRestored(d: Depot, addr: Addr, e: Entry, n: nat, quota: nat, u: Tree, j: nat, k: Maker, now: Int64)
    requires Load(d, addr) == Loaded.Listing([e]) && IsDirEntry(e) && e.name == XX && e.hash == addr
    requires j <= DEEPEST && WellFormed(u) && OnlyDirs(u) && IsDirOf(u, Nested(j))
    ensures RestoreTree(d, n, quota, u, PathOf(Nested(j)), addr, k, now).None?
    decreases n
  {
    hide *;
    NoDepth(d, quota, u, PathOf(Nested(j)), addr, k, now);
    if n > 0 {
      TwoLetters();
      NextPath(j, XX);
      var i := if j < DEEPEST then j + 1 else j;
      NextLevel(u, j, i);
      var p := SnapPath(PathOf(Nested(j)), XX);
      MadeAmongDirs(u, p, k, now);
      var v := Mkdir(u, p, true, k, now).tree;
      PathOfDir(p);
      DirIs(v, p);
      NeverRestored(d, addr, e, n - 1, quota, v, i, k, now);
      OneDirEntry(d, n, quota, u, PathOf(Nested(j)), addr, e, k, now);
    }
  }

  lemma NoDepth(d: Depot, quota: nat, u: Tree, path: Path, addr: Addr, k: Maker, now: Int64)
    ensures RestoreTree(d, 0, quota, u, path, addr, k, now).None?
  {
  }

  lemma TwoLetters()
    ensures |XX| == 2 && |XA| == 2
  {
  }

  lemma NextLevel(u: Tree, j: nat, i: nat)
    requires j <= DEEPEST && i == (if j < DEEPEST then j + 1 else j) && WellFormed(u) && IsDirOf(u, Nested(j))
    ensures 0 < i <= DEEPEST && Nested(i) == if j < DEEPEST then Child(Nested(j), XX) else Nested(j)
    ensures Normal(Nested(i)) && AllowedPath(Nested(i)) && 0 < |Nested(i)| < PATH_MAX
    ensures IsDirOf(u, Stem(Nested(i))) || DirAt(u, Nested(i))
  {
    NestedParts(i);
    hide Normal, WellFormed, AllowedPath;
  }

  lemma DirIs(v: Tree, p: Path)
    ensures DirAt(v, p) ==> IsDirOf(v, p)
  {
  }

  lemma OneDirEntry(d: Depot, n: nat, quota: nat, u: Tree, path: Path, addr: Addr, e: Entry, k: Maker, now: Int64)
    requires n > 0 && Load(d, addr) == Loaded.Listing([e]) && IsDirEntry(e)
    requires Mkdir(u, SnapPath(path, e.name), true, k, now).code.OK?
    requires var m := Mkdir(u, SnapPath(path, e.name), true, k, now);
             RestoreTree(d, n - 1, quota, m.tree, SnapPath(path, e.name), e.hash, k, now).None?
    ensures RestoreTree(d, n, quota, u, path, addr, k, now).None?
  {
    hide *;
    TreeIs(d, n, quota, u, path, addr, [e], k, now);
    EntriesAre(d, n - 1, quota, u, path, [e], k, now);
    DirEntryIs(d, n - 1, quota, u, path, e, k, now);
  }

  /** The same directory with a file listed first: at the longest path the file is
      taken for the directory it is in, and the restore fails. */
  lemma {:induction false} FileEndsIt(d: Depot, addr: Addr, f: Entry, e: Entry, n: nat, quota: nat, u: Tree, j: nat, k: Maker, now: Int64)
    requires Load(d, addr) == Loaded.Listing([f, e]) && FileType(f.mode) == S_IFREG && f.name == XA
    requires IsDirEntry(e) && e.name == XX && e.hash == addr
    requires j <= DEEPEST && n + j > DEEPEST && WellFormed(u) && IsDirOf(u, Nested(j))
    ensures var r := RestoreTree(d, n, quota, u, PathOf(Nested(j)), addr, k, now); r.Some? && !r.value.ok
    decreases DEEPEST - j
  {
    hide *;
    TwoLetters();
    NextPath(j, XA);
    NextPath(j, XX);
    var path := PathOf(Nested(j));
    var w := RestoreEntry(d, n - 1, quota, u, path, f, k, now);
    FileEntryIs(d, n - 1, quota, u, path, f, k, now);
    if j == DEEPEST {
      FileOverDir(d, n - 1, quota, u, path, f, Nested(j), k, now);
    } else if w.value.ok {
      var m := Mkdir(w.value.tree, SnapPath(path, XX), true, k, now);
      if m.code.OK? {
        NextLevel(u, j, j + 1);
        NestedMade(w.value.tree, j + 1, k, now);
        PathOfDir(Nested(j + 1));
        NotEmpty(Nested(j + 1));
        FileEndsIt(d, addr, f, e, n - 1, quota, m.tree, j + 1, k, now);
      }
      DirEntryIs(d, n - 1, quota, w.value.tree, path, e, k, now);
    }
    TwoEntries(d, n, quota, u, path, addr, f, e, k, now);
  }

  lemma NotEmpty(p: Path)
    requires |p| > 0
    ensures p != []
  {
  }

  lemma FileEntryIs(d: Depot, n: nat, quota: nat, u: Tree, path: Path, f: Entry, k: Maker, now: Int64)
    requires WellFormed(u) && FileType(f.mode) == S_IFREG
    ensures var r := RestoreEntry(d, n, quota, u, path, f, k, now); r.Some? && WellFormed(r.value.tree)
  {
    hide WellFormed, Open, Write, SnapPath, FileType, OverIn;
    var p := SnapPath(path, f.name);
    if Open(d, f.hash).Got? {
      var data := Open(d, f.hash).o.data;
      WriteKeeps(u, p, data, true, k, now, OverIn(u, quota, p, |data|));
    }
  }

  lemma FileOverDir(d: Depot, n: nat, quota: nat, u: Tree, path: Path, f: Entry, p: Path, k: Maker, now: Int64)
    requires WellFormed(u) && FileType(f.mode) == S_IFREG && SnapPath(path, f.name) == p
    requires p == Nested(DEEPEST) && IsDirOf(u, p)
    ensures var r := RestoreEntry(d, n, quota, u, path, f, k, now); r.Some? && !r.value.ok
  {
    NestedParts(DEEPEST);
    hide Nested, Normal, AllowedPath, WellFormed, Normalized, MakeRoom, Open, SnapPath, FileType, OverIn;
    NormalIsFixed(p);
    NormalNotRoot(p);
    AtDir(u, p);
  }

  lemma NestedMade(u: Tree, j: nat, k: Maker, now: Int64)
    requires WellFormed(u) && 0 < j <= DEEPEST && Mkdir(u, Nested(j), true, k, now).code.OK?
    ensures var m := Mkdir(u, Nested(j), true, k, now); WellFormed(m.tree) && IsDirOf(m.tree, Nested(j))
  {
    NestedParts(j);
    MkdirKeeps(u, Nested(j), true, k, now);
    hide Nested, Normal, AllowedPath, WellFormed, Normalized, Mkdir;
    NormalIsFixed(Nested(j));
    NormalNotRoot(Nested(j));
  }

  lemma DirEntryIs(d: Depot, n: nat, quota: nat, u: Tree, path: Path, e: Entry, k: Maker, now: Int64)
    requires IsDirEntry(e)
    ensures var m := Mkdir(u, SnapPath(path, e.name), true, k, now);
            RestoreEntry(d, n, quota, u, path, e, k, now)
            == if !m.code.OK? then Some(Restored(false, m.tree))
               else RestoreTree(d, n, quota, m.tree, SnapPath(path, e.name), e.hash, k, now)
  {
    hide Open, Write, Mkdir, SnapPath, FileType, IsDirEntry, OverIn, RestoreTree;
    RegIsNotDir(e);
  }

  lemma TwoEntries(d: Depot, n: nat, quota: nat, u: Tree, path: Path, addr: Addr, f: Entry, e: Entry, k: Maker, now: Int64)
    requires n > 0 && Load(d, addr) == Loaded.Listing([f, e])
    requires var w := RestoreEntry(d, n - 1, quota, u, path, f, k, now);
             w.Some? && (w.value.ok ==>
               var r := RestoreEntry(d, n - 1, quota, w.value.tree, path, e, k, now); r.Some? && !r.value.ok)
    ensures var r := RestoreTree(d, n, quota, u, path, addr, k, now); r.Some? && !r.value.ok
  {
    hide *;
    TreeIs(d, n, quota, u, path, addr, [f, e], k, now);
    EntriesAre(d, n - 1, quota, u, path, [f, e], k, now);
    assert [f, e][1..] == [e];
    var w := RestoreEntry(d, n - 1, quota, u, path, f, k, now);
    EntriesAre(d, n - 1, quota, w.value.tree, path, [e], k, now);
  }

  // ------------------------------------------------------------------
  // Such depots
  // ------------------------------------------------------------------

  function Self(): Addr { HexEncode(Preserve.Fill(1)) }

  function ItselfIn(): Entry { Entry(XX, S_IFDIR, 0, 0, 0, 0, Self()) }

  function FileIn(): Entry { Entry(XA, S_IFREG, 0, 0, 0, 0, Self()) }

  function Holding(dir: seq<Entry>): Depot { Depot(map[Preserve.Fill(1) := Object(TREE, Serialize(dir))], map[]) }

  lemma HoldingLoads(dir: seq<Entry>)
    requires dir == [ItselfIn()] || dir == [FileIn(), ItselfIn()]
    ensures Load(Holding(dir), Self()) == Loaded.Listing(dir)
  {
    NamesAreValid();
    LowerIsHash(Self());
    HexIsHashText(Self());
    assert Names.Less(XA, XX);
    hide Serialize, HashText, IsHash, IsLowerHash, HexEncode, Names.ValidName, Names.Less;
    assert Printable(dir);
    Preserve.StoredTextLoads(Holding(dir), 1, dir);
  }

  lemma NamesAreValid()
    ensures Names.ValidName(XX) && Names.ValidName(XA)
  {
    assert XX[Names.HeadLen(XX)..] == [0x78] && XA[Names.HeadLen(XA)..] == [0x61];
    assert [0x78][Names.HeadLen([0x78])..] == [] && [0x61][Names.HeadLen([0x61])..] == [];
    assert Names.WellFormed([0x78]) && Names.WellFormed([0x61]);
    assert Names.WellFormed(XX) && Names.WellFormed(XA);
  }

  /** Restoring {xx: itself} into an empty filesystem never ends, whatever the quota;
      restoring {xa: a file, xx: itself} always ends, with a failure. */
  lemma RestoringItself(quota: nat, k: Maker, now: Int64)
    ensures forall n :: RestoreTree(Holding([ItselfIn()]), n, quota, {}, ROOT, Self(), k, now).None?
    ensures forall n | n > DEEPEST ::
              var r := RestoreTree(Holding([FileIn(), ItselfIn()]), n, quota, {}, ROOT, Self(), k, now); r.Some? && !r.value.ok
  {
    EntriesAreSo();
    hide *;
    HoldingLoads([ItselfIn()]);
    HoldingLoads([FileIn(), ItselfIn()]);
    AtTheRoot();
    forall n
      ensures RestoreTree(Holding([ItselfIn()]), n, quota, {}, ROOT, Self(), k, now).None?
    {
      NeverRestored(Holding([ItselfIn()]), Self(), ItselfIn(), n, quota, {}, 0, k, now);
    }
    forall n | n > DEEPEST
      ensures var r := RestoreTree(Holding([FileIn(), ItselfIn()]), n, quota, {}, ROOT, Self(), k, now); r.Some? && !r.value.ok
    {
      FileEndsIt(Holding([FileIn(), ItselfIn()]), Self(), FileIn(), ItselfIn(), n, quota, {}, 0, k, now);
    }
  }

  lemma EntriesAreSo()
    ensures IsDirEntry(ItselfIn()) && ItselfIn().name == XX && ItselfIn().hash == Self()
    ensures FileType(FileIn().mode) == S_IFREG && FileIn().name == XA
  {
  }

  lemma AtTheRoot()
    ensures WellFormed({}) && OnlyDirs({}) && IsDirOf({}, Nested(0)) && PathOf(Nested(0)) == ROOT && 0 <= DEEPEST
  {
  }
}
