/** Storing a snapshot (vfs-snap.c: snap_dir, vfs_snap_store). */
module Snap {
  import opened Bytes
  import Names
  import opened Entries
  import opened TreeText
  import Htree
  import HtreeRead
  import opened Objects
  import opened Directory
  import opened VfsPath
  import opened VfsTree
  import opened Vfs
  import opened SnapSpec

  // ------------------------------------------------------------------
  // Objects that do not clash
  // ------------------------------------------------------------------

  /** x gives a reader what o would: a directory in either form its listing,
      anything else its bytes. */
  ghost predicate ReadsAs(x: Object, o: Object)
  {
    if o.kind == TREE then ListObject(x) == ListObject(o) else x == o
  }

  /** No two of these objects share an address. */
  ghost predicate NoClash(hash: HashFn, all: set<Object>)
  {
    forall a, b :: a in all && b in all && hash(a) == hash(b) ==> a == b
  }

  /** Whatever sits at the address of one of these objects reads as it. */
  ghost predicate Trusted(hash: HashFn, objects: map<Digest, Object>, all: set<Object>)
  {
    forall o :: o in all && hash(o) in objects ==> ReadsAs(objects[hash(o)], o)
  }

  function ListingText(dir: seq<Entry>): Object { Object(TREE, Serialize(dir)) }

  ghost predicate IsDirOf(t: Tree, d: Path) { d == [] || DirAt(t, d) }

  /** The set holds every object a snapshot of the tree names. */
  ghost predicate Covers(all: set<Object>, hash: HashFn, t: Tree)
    requires Snappable(t)
  {
    && (forall n :: n in t && !n.dir ==> BlobOf(n) in all)
    && (forall d: Path :: |d| < PATH_MAX && IsDirOf(t, d) ==> ListingText(SnapListing(hash, t, d)) in all)
  }

  lemma PutTrusted(hash: HashFn, objects: map<Digest, Object>, all: set<Object>, o: Object, x: Object)
    requires Trusted(hash, objects, all) && NoClash(hash, all) && o in all && ReadsAs(x, o)
    ensures Trusted(hash, objects[hash(o) := x], all)
  {
    hide ListObject;
  }

  // ------------------------------------------------------------------
  // What is below a directory
  // ------------------------------------------------------------------

  ghost predicate Below(d: Path, p: Path) { d == [] || Under(d, p) }

  /** A node below d is a child of d or below a directory that is. */
  lemma {:induction false} ChildOnPath(t: Tree, d: Path, n: Node) returns (c: Node)
    requires WellFormed(t) && n in t && Below(d, n.path)
    ensures c in ChildSet(t, d) && (n == c || (c.dir && Under(c.path, n.path)))
    decreases |n.path|
  {
    hide Normal, Component, AllowedPath, Under;
    NodeIsNormal(t, n);
    NormalHasSlash(n.path);
    UnderStem(d, n.path);
    if Stem(n.path) == d {
      c := n;
    } else {
      if Stem(n.path) == [] {
        NothingAboveTop(d);
      }
      var m :| m in t && m.path == Stem(n.path) && m.dir;
      c := ChildOnPath(t, d, m);
      UnderStem(c.path, n.path);
    }
  }

  lemma BelowChild(t: Tree, d: Path, c: Node, p: Path)
    requires WellFormed(t) && c in ChildSet(t, d) && Under(c.path, p)
    ensures Below(d, p) && Below(d, c.path)
  {
    hide Normal, Component, AllowedPath, Under;
    ChildIsBelow(t, d, c);
    if d != [] {
      UnderTransitive(d, c.path, p);
    }
  }

  lemma ChildIsBelow(t: Tree, d: Path, c: Node)
    requires WellFormed(t) && c in ChildSet(t, d)
    ensures Below(d, c.path)
  {
    NodeIsNormal(t, c);
    hide Normal, Component, AllowedPath;
    NormalNotRoot(c.path);
    NormalHasSlash(c.path);
    UnderStem(d, c.path);
  }

  ghost predicate AcceptedBelow(t: Tree, d: Path)
  {
    forall n :: n in t && Below(d, n.path) ==> Accepted(n)
  }

  /** The directory's object is there, and its listing is one the tree layer
      stores. */
  ghost predicate DirPresent(hash: HashFn, objects: map<Digest, Object>, t: Tree, d: Path)
    requires Snappable(t) && |d| < PATH_MAX
  {
    && DirDigest(hash, t, d) in objects
    && Lists(SnapListing(hash, t, d), EntrySet(hash, t, d))
    && Canonical(SnapListing(hash, t, d))
  }

  ghost predicate NodePresent(hash: HashFn, objects: map<Digest, Object>, t: Tree, n: Node)
    requires Snappable(t) && n in t
  {
    if n.dir then DirPresent(hash, objects, t, n.path) else hash(BlobOf(n)) in objects
  }

  /** Every object of the snapshot at d and below is there. */
  ghost predicate Present(hash: HashFn, objects: map<Digest, Object>, t: Tree, d: Path)
    requires Snappable(t) && |d| < PATH_MAX
  {
    DirPresent(hash, objects, t, d)
    && forall n :: n in t && Below(d, n.path) ==> NodePresent(hash, objects, t, n)
  }

  /** What is known of a child once it is stored. */
  ghost predicate ChildPresent(hash: HashFn, objects: map<Digest, Object>, t: Tree, c: Node)
    requires Snappable(t) && c in t
  {
    if c.dir then Present(hash, objects, t, c.path) else hash(BlobOf(c)) in objects
  }

  ghost predicate ChildAccepted(t: Tree, c: Node)
  {
    Accepted(c) && (c.dir ==> AcceptedBelow(t, c.path))
  }

  lemma PresentByChildren(hash: HashFn, objects: map<Digest, Object>, t: Tree, d: Path)
    requires Snappable(t) && |d| < PATH_MAX && DirPresent(hash, objects, t, d)
    requires forall c :: c in ChildSet(t, d) ==> ChildPresent(hash, objects, t, c)
    ensures Present(hash, objects, t, d)
  {
    hide DirPresent, WellFormed, Under;
    forall n | n in t && Below(d, n.path)
      ensures NodePresent(hash, objects, t, n)
    {
      var c := ChildOnPath(t, d, n);
      assert ChildPresent(hash, objects, t, c);
      BelowNotEmpty(c.path, n.path);
    }
  }

  lemma BelowNotEmpty(c: Path, p: Path)
    ensures Under(c, p) ==> Below(c, p)
  {
  }

  lemma AcceptedByChildren(t: Tree, d: Path)
    requires WellFormed(t)
    ensures AcceptedBelow(t, d) <==> forall c :: c in ChildSet(t, d) ==> ChildAccepted(t, c)
  {
    hide WellFormed, Under, Accepted;
    if AcceptedBelow(t, d) {
      forall c | c in ChildSet(t, d)
        ensures ChildAccepted(t, c)
      {
        ChildIsBelow(t, d, c);
        DirIsNamed(t, c);
        forall n | n in t && Below(c.path, n.path)
          ensures Accepted(n)
        {
          BelowChild(t, d, c, n.path);
        }
      }
    }
    if forall c :: c in ChildSet(t, d) ==> ChildAccepted(t, c) {
      forall n | n in t && Below(d, n.path)
        ensures Accepted(n)
      {
        var c := ChildOnPath(t, d, n);
        assert ChildAccepted(t, c);
      }
    }
  }

  lemma DirIsNamed(t: Tree, c: Node)
    requires WellFormed(t) && c in t
    ensures c.path != []
  {
    NodeIsNormal(t, c);
    NormalNotRoot(c.path);
  }

  // ------------------------------------------------------------------
  // The listing of a directory, from the entries in any order
  // ------------------------------------------------------------------

  ghost predicate EntriesOf(hash: HashFn, t: Tree, children: seq<Node>, dir: seq<Entry>)
    requires Snappable(t)
  {
    |dir| == |children| && forall i :: 0 <= i < |dir| ==> children[i] in t && dir[i] == EntryOf(hash, t, children[i])
  }

  lemma EntryName(hash: HashFn, t: Tree, n: Node)
    requires Snappable(t) && n in t
    ensures EntryOf(hash, t, n).name == Base(n.path) && EntryOf(hash, t, n).mode == ModeOf(n)
    ensures IsLowerHash(EntryOf(hash, t, n).hash) && IsHash(EntryOf(hash, t, n).hash)
  {
    hide DirDigest, HexEncode;
    LowerIsHash(EntryOf(hash, t, n).hash);
  }

  lemma SortedIsListing(hash: HashFn, t: Tree, d: Path, children: seq<Node>, dir: seq<Entry>, sorted: seq<Entry>)
    requires Snappable(t) && |d| < PATH_MAX && EntriesOf(hash, t, children, dir)
    requires forall n :: n in children <==> n in ChildSet(t, d)
    requires Ascending(sorted) && SameEntries(sorted, dir)
    ensures sorted == SnapListing(hash, t, d) && Lists(sorted, EntrySet(hash, t, d))
  {
    hide EntryOf, WellFormed, Ascending;
    var es := EntrySet(hash, t, d);
    forall e | e in es
      ensures e in sorted
    {
      var n :| n in ChildSet(t, d) && EntryOf(hash, t, n) == e;
      var i :| 0 <= i < |children| && children[i] == n;
      assert dir[i] == e;
    }
    forall e | e in sorted
      ensures e in es
    {
      var i :| 0 <= i < |dir| && dir[i] == e;
      assert children[i] in children;
      ChildIsLonger(t, d, children[i]);
    }
    ListingIsUnique(sorted, es);
  }

  lemma ListingIsCanonical(hash: HashFn, t: Tree, dir: seq<Entry>, children: seq<Node>, sorted: seq<Entry>)
    requires Snappable(t) && EntriesOf(hash, t, children, dir) && Ascending(sorted) && SameEntries(sorted, dir)
    requires forall n :: n in children ==> Names.ValidName(Base(n.path))
    ensures Canonical(sorted) && LowerHashes(sorted)
  {
    hide EntryOf, WellFormed, Ascending, Names.ValidName, IsHash, IsLowerHash;
    forall i | 0 <= i < |sorted|
      ensures WellFormedEntry(sorted[i]) && IsLowerHash(sorted[i].hash)
    {
      assert sorted[i] in dir;
      var k :| 0 <= k < |dir| && dir[k] == sorted[i];
      assert children[k] in children;
      EntryName(hash, t, children[k]);
      ModeTells(children[k]);
    }
  }

  /** Either form of a directory with lower-case addresses reads as its text. */
  lemma StoredFormReads(dir: seq<Entry>, useHtree: bool)
    requires Canonical(dir) && LowerHashes(dir) && Htree.Hashed(dir) && (useHtree ==> HtreeRead.Fits(dir))
    ensures ReadsAs(TreeObject(dir, useHtree), ListingText(dir))
    ensures ListObject(ListingText(dir)) == Loaded.Listing(dir)
  {
    hide Serialize, Htree.Encode, HtreeRead.Parse, LoadText, Canonical, LowerHashes, HtreeRead.Fits, Printable;
    CanonicalIsPrintable(dir);
    TextRoundTrip(dir);
    if useHtree {
      HtreeRead.ParseOfEncode(dir);
      LowerIsNormal(dir);
    }
  }

  // ------------------------------------------------------------------
  // Whether storing ends, and how
  // ------------------------------------------------------------------

  /** The directory a path means to the filesystem. */
  function DirOf(path: Path): Path
  {
    var q := Normalized(path);
    if q.None? || q.value == ROOT then [] else q.value
  }

  /** The name a child is known by, from its path as it fits the buffer. */
  function Seen(c: Node): seq<byte> { Base(Cut(c.path)) }

  predicate NamesApart(children: seq<Node>)
  {
    forall i, j :: 0 <= i < j < |children| ==> Seen(children[i]) != Seen(children[j])
  }

  /** Whether storing the directory at path succeeds; None when its recursion
      goes deeper than n. */
  ghost function Snaps(nodes: seq<Node>, path: Path, n: nat): Option<bool>
    decreases n, 0, 0
  {
    if n == 0 then None
    else if !ListCode(AsTree(nodes), path).OK? then Some(false)
    else
      var children := ChildNodes(nodes, DirOf(path));
      var r := SnapsAll(nodes, children, n - 1);
      if r == Some(true) then Some(NamesApart(children)) else r
  }

  /** Its loop over the children, up to the first that is refused. */
  ghost function SnapsAll(nodes: seq<Node>, children: seq<Node>, n: nat): Option<bool>
    decreases n, 2, |children|
  {
    if children == [] then Some(true)
    else
      var r := SnapsOne(nodes, children[0], n);
      if r == Some(true) then SnapsAll(nodes, children[1..], n) else r
  }

  ghost function SnapsOne(nodes: seq<Node>, c: Node, n: nat): Option<bool>
    decreases n, 1, 0
  {
    var name := Seen(c);
    if |name| == 0 || |name| > Names.NAME_MAX then Some(false)
    else
      var r := if c.dir then Snaps(nodes, Cut(c.path), n) else Some(ReadCode(AsTree(nodes), Cut(c.path)).OK?);
      if r == Some(true) then Some(Names.ValidName(name)) else r
  }

  // ------------------------------------------------------------------
  // snap_dir
  // ------------------------------------------------------------------

  /** With the table form in use, every directory's table is addressable. */
  ghost predicate FormsFit(hash: HashFn, t: Tree, useHtree: bool)
    requires Snappable(t)
  {
    useHtree ==> forall d: Path :: |d| < PATH_MAX && IsDirOf(t, d) && Htree.Hashed(SnapListing(hash, t, d)) ==>
                   HtreeRead.Fits(SnapListing(hash, t, d))
  }

  /** The stage a snapshot is taken on: an honest store and a readable tree. */
  ghost predicate Ready(hash: HashFn, objects: map<Digest, Object>, all: set<Object>, t: Tree, useHtree: bool)
  {
    Snappable(t) && Covers(all, hash, t) && NoClash(hash, all) && Trusted(hash, objects, all) && FormsFit(hash, t, useHtree)
  }

  function PathOf(d: Path): Path { if d == [] then ROOT else d }

  /** cas_tree_dir_add's tests on a name that came from a path. */
  method NameAccepted(name: seq<byte>) returns (ok: bool)
    requires 0 !in name && SLASH !in name
    ensures ok <==> Names.ValidName(name)
  {
    if |name| == 0 || |name| > Names.NAME_MAX {
      return false;
    }
    if 0x0A in name {
      return false;
    }
    ok := Names.ValidUtf8(name);
  }

  lemma CutBaseIsPlain(t: Tree, n: Node)
    requires WellFormed(t) && n in t
    ensures 0 !in Base(Cut(n.path)) && SLASH !in Base(Cut(n.path))
  {
    NodeIsNormal(t, n);
    hide Normal;
    CutIsAllowed(n.path);
    AllowedNoNul(Cut(n.path));
  }

  lemma CutIsAllowed(p: Path)
    requires AllowedPath(p)
    ensures AllowedPath(Cut(p))
  {
    hide Allowed;
  }

  lemma AllowedNoNul(p: Path)
    requires AllowedPath(p)
    ensures 0 !in Base(p)
  {
    forall i | 0 <= i < |Base(p)|
      ensures Base(p)[i] != 0
    {
      assert Allowed(p[LastSlash(p) + 1 + i]);
    }
  }

  /** A path that a directory, or the root, may have. */
  predicate DirPathLike(d: Path) { d == [] || (Normal(d) && |d| < PATH_MAX) }

  lemma DirCode(t: Tree, d: Path)
    requires WellFormed(t) && DirPathLike(d)
    ensures Normalized(PathOf(d)) == Some(PathOf(d)) && (PathOf(d) == ROOT <==> d == [])
    ensures ListCode(t, PathOf(d)).OK? <==> IsDirOf(t, d)
  {
    if d != [] {
      NormalNotRoot(d);
      NormalIsFixed(d);
    } else {
      RootIsFixed();
    }
    hide Normal, AllowedPath, Normalized, WellFormed;
    AtDir(t, d);
  }

  /** The path of a directory of the tree, or of the root. */
  lemma DirFits(t: Tree, d: Path)
    requires Snappable(t) && IsDirOf(t, d)
    ensures |d| < PATH_MAX && (d != [] ==> Normal(d) && d != ROOT)
    ensures Normalized(PathOf(d)) == Some(PathOf(d))
    ensures ListCode(t, PathOf(d)) == Code.OK
  {
    if d != [] {
      var m :| m in t && m.path == d && m.dir;
      NodeIsNormal(t, m);
    }
    hide Normal, AllowedPath, Normalized, WellFormed;
    DirCode(t, d);
    if d != [] {
      NormalNotRoot(d);
    }
  }

  lemma FileReads(t: Tree, n: Node)
    requires WellFormed(t) && n in t && !n.dir && |n.path| < PATH_MAX
    ensures ReadCode(t, n.path) == Code.OK && Normalized(n.path) == Some(n.path) && At(t, n.path) == Some(n)
  {
    NodeIsNormal(t, n);
    hide Normal, AllowedPath, Normalized;
    NormalIsFixed(n.path);
    AtIs(t, n);
  }

  lemma GrownDir(hash: HashFn, a: map<Digest, Object>, b: map<Digest, Object>, t: Tree, d: Path)
    requires Snappable(t) && |d| < PATH_MAX && Grows(a, b) && DirPresent(hash, a, t, d)
    ensures DirPresent(hash, b, t, d)
  {
    hide DirDigest, WellFormed, Lists, Canonical, SnapListing, EntrySet;
  }

  lemma GrownPresent(hash: HashFn, a: map<Digest, Object>, b: map<Digest, Object>, t: Tree, c: Node)
    requires Snappable(t) && c in t && Grows(a, b) && ChildPresent(hash, a, t, c)
    ensures ChildPresent(hash, b, t, c)
  {
    hide DirDigest, WellFormed, Under, DirPresent;
    if c.dir {
      GrownDir(hash, a, b, t, c.path);
      forall n | n in t && Below(c.path, n.path)
        ensures NodePresent(hash, b, t, n)
      {
        assert NodePresent(hash, a, t, n);
        if n.dir {
          GrownDir(hash, a, b, t, n.path);
        }
      }
    }
  }

  lemma GrowsTransitive(a: map<Digest, Object>, b: map<Digest, Object>, c: map<Digest, Object>)
    requires Grows(a, b) && Grows(b, c)
    ensures Grows(a, c)
  {
  }

  lemma GrowsItself(a: map<Digest, Object>)
    ensures Grows(a, a)
  {
  }

  lemma PutGrows(a: map<Digest, Object>, h: Digest, o: Object)
    ensures Grows(a, if h in a then a else a[h := o])
  {
  }

  lemma StillReady(hash: HashFn, a: map<Digest, Object>, b: map<Digest, Object>, all: set<Object>, t: Tree, useHtree: bool)
    requires Ready(hash, a, all, t, useHtree) && Trusted(hash, b, all)
    ensures Ready(hash, b, all, t, useHtree)
  {
    hide Covers, FormsFit, Snappable, NoClash, Trusted;
  }

  // ------------------------------------------------------------------
  // Paths that do not fit
  // ------------------------------------------------------------------

  /** A path cut short, with a name left, is that of another node of the same
      directory. */
  ghost predicate HasTwin(t: Tree, c: Node)
  {
    exists m :: m in t && m.path == Cut(c.path) && Stem(m.path) == Stem(c.path)
  }

  /** Cutting the path leaves a name in the same directory, or none. */
  predicate CutsInside(p: Path)
  {
    Base(Cut(p)) == [] || (|Stem(p)| < PATH_MAX - 1 && Component(Base(Cut(p))))
  }

  /** A subdirectory whose cut path leads the code back to a directory it is in. */
  predicate LeadsBack(n: Node)
  {
    n.dir && |Stem(n.path)| < PATH_MAX <= |n.path| && !CutsInside(n.path) && |Seen(n)| <= Names.NAME_MAX
  }

  lemma CutParts(p: Path)
    requires LastSlash(p) >= 0 && |p| >= PATH_MAX && |Stem(p)| < PATH_MAX - 1
    ensures Cut(p) == Child(Stem(p), Base(Cut(p))) && Stem(Cut(p)) == Stem(p) && |Cut(p)| == PATH_MAX - 1
    ensures SLASH !in Base(Cut(p)) && |Base(Cut(p))| == PATH_MAX - 2 - |Stem(p)|
  {
    PathParts(p);
    var name := Base(p)[..PATH_MAX - 2 - |Stem(p)|];
    assert Cut(p) == Child(Stem(p), name);
    assert forall x :: x in name ==> x in Base(p);
    ChildParts(Stem(p), name);
  }

  /** The path cut to the length of its own directory is that directory. */
  lemma CutIsStem(p: Path)
    requires LastSlash(p) >= 0 && |p| >= PATH_MAX && |Stem(p)| == PATH_MAX - 1
    ensures Cut(p) == Stem(p)
  {
    PathParts(p);
  }

  lemma CutIsNormal(p: Path)
    requires Normal(p) && |Stem(p)| < PATH_MAX - 1 && Component(Base(Cut(p)))
    ensures Normal(Cut(p)) && |Cut(p)| > |Stem(p)| && Stem(Cut(p)) == Stem(p)
  {
    NormalHasSlash(p);
    if |p| >= PATH_MAX {
      CutParts(p);
      NormalChild(Stem(p), Base(Cut(p)));
    }
  }

  /** Where a path cut back leads: to the directory it was listed in or to that
      one's parent. */
  lemma CutLeadsBack(t: Tree, c: Node)
    requires WellFormed(t) && c in t && |Stem(c.path)| < PATH_MAX <= |c.path| && Base(Cut(c.path)) != []
    requires !CutsInside(c.path)
    ensures var q := Normalized(Cut(c.path)); q == Some(Stem(c.path)) || q == Some(Parent(Stem(c.path)))
    ensures ListCode(t, Cut(c.path)).OK? && !ReadCode(t, Cut(c.path)).OK?
  {
    NodeIsNormal(t, c);
    NormalHasSlash(c.path);
    ExistsUnderParent(t, c);
    var d := Stem(c.path);
    if |d| == PATH_MAX - 1 {
      CutIsStem(c.path);
      ReadsNothing(t, d);
    } else {
      CutParts(c.path);
      assert d != [];
      ParentIsDir(t, d);
      hide Normal, WellFormed, Normalized;
      DotsGoBack(d, Base(Cut(c.path)));
      ReadsNothing(t, d);
      if Stem(d) != [] {
        ReadsNothing(t, Stem(d));
      }
    }
  }

  lemma ParentIsDir(t: Tree, d: Path)
    requires WellFormed(t) && DirAt(t, d)
    ensures Normal(d) && (Stem(d) == [] || DirAt(t, Stem(d)))
    ensures At(t, ROOT).None?
  {
    var m :| m in t && m.path == d && m.dir;
    NodeIsNormal(t, m);
    ExistsUnderParent(t, m);
    forall n | n in t
      ensures n.path != ROOT
    {
      NodeIsNormal(t, n);
      NormalNotRoot(n.path);
    }
  }

  lemma ReadsNothing(t: Tree, d: Path)
    requires WellFormed(t) && DirAt(t, d) && |d| < PATH_MAX
    ensures At(t, d).Some? && At(t, d).value.dir && Normalized(d) == Some(d)
  {
    ParentIsDir(t, d);
    hide Normal, WellFormed;
    NormalIsFixed(d);
    AtDir(t, d);
  }

  /** A file whose path does not fit is read, if at all, as its twin. */
  lemma LongFile(t: Tree, c: Node)
    requires WellFormed(t) && c in t && |Stem(c.path)| < PATH_MAX <= |c.path| && Base(Cut(c.path)) != []
    requires ReadCode(t, Cut(c.path)).OK?
    ensures HasTwin(t, c)
  {
    NodeIsNormal(t, c);
    hide Normal, WellFormed, Normalized, Component;
    if !CutsInside(c.path) {
      CutLeadsBack(t, c);
    } else {
      CutIsNormal(c.path);
      NormalIsFixed(Cut(c.path));
      var m := At(t, Cut(c.path)).value;
      assert m in t && m.path == Cut(c.path);
    }
  }

  lemma LongDir(t: Tree, c: Node)
    requires WellFormed(t) && c in t && Stem(Cut(c.path)) == Stem(c.path) && IsDirOf(t, Cut(c.path)) && Cut(c.path) != []
    ensures HasTwin(t, c)
  {
    hide WellFormed;
  }

  // ------------------------------------------------------------------
  // What it answers when it ends
  // ------------------------------------------------------------------

  lemma {:induction false} AllTrue(nodes: seq<Node>, children: seq<Node>, n: nat, c: Node)
    requires SnapsAll(nodes, children, n) == Some(true) && c in children
    ensures SnapsOne(nodes, c, n) == Some(true)
    decreases |children|
  {
    hide SnapsOne;
    if c != children[0] {
      AllTrue(nodes, children[1..], n, c);
    }
  }

  lemma {:induction false} OneFalse(nodes: seq<Node>, children: seq<Node>, n: nat) returns (c: Node)
    requires SnapsAll(nodes, children, n) == Some(false)
    ensures c in children && SnapsOne(nodes, c, n) == Some(false)
    decreases |children|
  {
    hide SnapsOne;
    if SnapsOne(nodes, children[0], n) == Some(false) {
      c := children[0];
    } else {
      c := OneFalse(nodes, children[1..], n);
    }
  }

  /** A child of a listed directory, and where the code goes for it. */
  lemma ListedChild(nodes: seq<Node>, d: Path, c: Node)
    ensures c in ChildNodes(nodes, d) <==> c in ChildSet(AsTree(nodes), d)
  {
    hide ChildNodes;
  }

  lemma SnapsTrueParts(nodes: seq<Node>, path: Path, n: nat)
    requires Snaps(nodes, path, n) == Some(true)
    ensures n > 0 && ListCode(AsTree(nodes), path).OK? && NamesApart(ChildNodes(nodes, DirOf(path)))
    ensures forall c :: c in ChildSet(AsTree(nodes), DirOf(path)) ==> SnapsOne(nodes, c, n - 1) == Some(true)
  {
    hide ListCode, DirOf, ChildNodes, SnapsAll, SnapsOne, NamesApart;
    SnapsIs(nodes, path, n);
    var children := ChildNodes(nodes, DirOf(path));
    forall c | c in ChildSet(AsTree(nodes), DirOf(path))
      ensures SnapsOne(nodes, c, n - 1) == Some(true)
    {
      AllTrue(nodes, children, n - 1, c);
    }
  }

  lemma OneTrueParts(nodes: seq<Node>, c: Node, n: nat)
    requires SnapsOne(nodes, c, n) == Some(true)
    ensures Seen(c) != [] && |Seen(c)| <= Names.NAME_MAX && Names.ValidName(Seen(c))
    ensures if c.dir then Snaps(nodes, Cut(c.path), n) == Some(true) else ReadCode(AsTree(nodes), Cut(c.path)).OK?
  {
    hide Snaps, ReadCode, Names.ValidName, Seen, Cut;
    SnapsOneIs(nodes, c, n);
  }

  lemma LeadsBackParts(t: Tree, d: Path, c: Node)
    requires WellFormed(t) && c in ChildSet(t, d) && LeadsBack(c)
    ensures Seen(c) != [] && d != [] && ListCode(t, Cut(c.path)).OK? && DirAt(t, d)
    ensures DirOf(Cut(c.path)) == d || DirOf(Cut(c.path)) == Stem(d)
  {
    CutLeadsBack(t, c);
    NodeIsNormal(t, c);
    NormalHasSlash(c.path);
    if d == [] {
      CutParts(c.path);
    } else {
      ExistsUnderParent(t, c);
      ParentIsDir(t, d);
      NormalNotRoot(d);
      hide Normal, WellFormed, Normalized, CutsInside, ListCode;
    }
  }

  /** A directory that leads back is never stored: it would have to be stored
      again on the way, and again. */
  lemma {:induction false} BackIsRefused(nodes: seq<Node>, d: Path, c: Node, n: nat)
    requires NoDup(nodes) && WellFormed(AsTree(nodes)) && c in ChildSet(AsTree(nodes), d) && |d| < PATH_MAX && LeadsBack(c)
    ensures c.dir && Snaps(nodes, Cut(c.path), n) != Some(true)
    decreases n
  {
    hide *;
    var t := AsTree(nodes);
    ItIsADir(c);
    if Snaps(nodes, Cut(c.path), n) == Some(true) {
      LeadsBackParts(t, d, c);
      SnapsTrueParts(nodes, Cut(c.path), n);
      if DirOf(Cut(c.path)) == d {
        OneTrueParts(nodes, c, n - 1);
        BackIsRefused(nodes, d, c, n - 1);
      } else {
        var m := DirNode(t, d);
        OneTrueParts(nodes, m, n - 1);
        OwnPath(t, m);
        SeenIs(m);
        SnapsTrueParts(nodes, m.path, n - 1);
        OneTrueParts(nodes, c, n - 2);
        BackIsRefused(nodes, d, c, n - 2);
      }
    }
  }

  lemma ItIsADir(c: Node)
    requires LeadsBack(c)
    ensures c.dir && |c.path| >= PATH_MAX
  {
  }

  lemma DirNode(t: Tree, d: Path) returns (m: Node)
    requires DirAt(t, d)
    ensures m in t && m.path == d && m.dir && m in ChildSet(t, Stem(d))
  {
    m :| m in t && m.path == d && m.dir;
  }

  /** A child that was taken, though its path does not fit, has a twin. */
  lemma TakenHasTwin(nodes: seq<Node>, path: Path, n: nat, c: Node)
    requires NoDup(nodes) && WellFormed(AsTree(nodes)) && |DirOf(path)| < PATH_MAX && Snaps(nodes, path, n) == Some(true)
    requires c in ChildSet(AsTree(nodes), DirOf(path)) && |c.path| >= PATH_MAX
    ensures HasTwin(AsTree(nodes), c)
  {
    var t := AsTree(nodes);
    hide *;
    SnapsTrueParts(nodes, path, n);
    OneTrueParts(nodes, c, n - 1);
    SeenIs(c);
    ChildOf(t, DirOf(path), c);
    if c.dir {
      if LeadsBack(c) {
        BackIsRefused(nodes, DirOf(path), c, n - 1);
      } else {
        SnapsTrueParts(nodes, Cut(c.path), n - 1);
        InsideIsTwin(t, c);
      }
    } else {
      LongFile(t, c);
    }
  }

  lemma InsideIsTwin(t: Tree, c: Node)
    requires WellFormed(t) && c in t && c.dir && |Stem(c.path)| < PATH_MAX <= |c.path| && !LeadsBack(c)
    requires Seen(c) != [] && |Seen(c)| <= Names.NAME_MAX && ListCode(t, Cut(c.path)).OK?
    ensures HasTwin(t, c)
  {
    NodeIsNormal(t, c);
    hide Normal, WellFormed, Normalized, Component, ListCode, Base, Stem;
    CutIsNormal(c.path);
    CutDir(t, Cut(c.path));
    LongDir(t, c);
  }

  lemma CutDir(t: Tree, p: Path)
    requires WellFormed(t) && Normal(p) && |p| < PATH_MAX && ListCode(t, p).OK?
    ensures DirAt(t, p) && p != []
  {
    hide Normal, WellFormed, Normalized;
    NormalIsFixed(p);
    NormalNotRoot(p);
    AtDir(t, p);
  }

  /** Then the two are seen under one name. */
  lemma TwinsClash(nodes: seq<Node>, d: Path, c: Node)
    requires c in ChildSet(AsTree(nodes), d) && |c.path| >= PATH_MAX && HasTwin(AsTree(nodes), c)
    ensures !NamesApart(ChildNodes(nodes, d))
  {
    hide ChildNodes, Base, Stem;
    var m :| m in AsTree(nodes) && m.path == Cut(c.path) && Stem(m.path) == Stem(c.path);
    var children := ChildNodes(nodes, d);
    assert Cut(m.path) == m.path;
    var i :| 0 <= i < |children| && children[i] == c;
    var j :| 0 <= j < |children| && children[j] == m;
    assert Seen(children[i]) == Seen(children[j]);
  }

  /** What is stored is accepted, */
  lemma {:induction false} StoredIsAccepted(nodes: seq<Node>, path: Path, n: nat)
    requires NoDup(nodes) && WellFormed(AsTree(nodes)) && Snaps(nodes, path, n) == Some(true)
    ensures ListCode(AsTree(nodes), path).OK? && AcceptedBelow(AsTree(nodes), DirOf(path))
    decreases n
  {
    var t, d := AsTree(nodes), DirOf(path);
    hide *;
    SnapsTrueParts(nodes, path, n);
    ListedDir(t, path);
    forall c | c in ChildSet(t, d)
      ensures ChildAccepted(t, c)
    {
      ChildOf(t, d, c);
      OneTrueParts(nodes, c, n - 1);
      SeenIs(c);
      if |c.path| >= PATH_MAX {
        TakenHasTwin(nodes, path, n, c);
        TwinsClash(nodes, d, c);
      } else {
        if c.dir {
          OwnPath(t, c);
          StoredIsAccepted(nodes, c.path, n - 1);
        }
        AcceptedIs(t, c);
      }
    }
    AcceptedByChildren(t, d);
  }

  lemma AcceptedIs(t: Tree, c: Node)
    ensures Accepted(c) <==> Names.ValidName(Base(c.path)) && |c.path| < PATH_MAX
    ensures ChildAccepted(t, c) <==> Accepted(c) && (c.dir ==> AcceptedBelow(t, c.path))
  {
    hide Names.ValidName, Base, AcceptedBelow;
  }

  /** Something the tree layer does not accept and no directory leads back with. */
  ghost predicate Cause(t: Tree, c: Node) { c in t && !Accepted(c) && !LeadsBack(c) }

  /** and what is refused is refused for a cause: a child itself, or one found in
      the directory visited for it. */
  lemma {:induction false} RefusedHasCause(nodes: seq<Node>, path: Path, n: nat)
    requires NoDup(nodes) && WellFormed(AsTree(nodes)) && Snaps(nodes, path, n) == Some(false)
    requires ListCode(AsTree(nodes), path).OK?
    ensures !AcceptedBelow(AsTree(nodes), DirOf(path)) && exists x :: Cause(AsTree(nodes), x)
    decreases n, 1
  {
    var t, d := AsTree(nodes), DirOf(path);
    hide *;
    SnapsIs(nodes, path, n);
    ListedDir(t, path);
    var children := ChildNodes(nodes, d);
    if SnapsAll(nodes, children, n - 1) == Some(true) {
      var c := ClashingChild(nodes, d);
      AllTrue(nodes, children, n - 1, c);
      OneTrueParts(nodes, c, n - 1);
      ListedChild(nodes, d, c);
      ChildOf(t, d, c);
      AcceptedIs(t, c);
      if LeadsBack(c) {
        BackIsRefused(nodes, d, c, n - 1);
      }
      CauseIs(t, c);
      NotAcceptedBelow(t, d, c);
    } else {
      var c := OneFalse(nodes, children, n - 1);
      ListedChild(nodes, d, c);
      ChildOf(t, d, c);
      RefusedChildHasCause(nodes, d, c, n - 1);
    }
  }

  lemma CauseIs(t: Tree, c: Node)
    ensures Cause(t, c) <==> c in t && !Accepted(c) && !LeadsBack(c)
    ensures |c.path| < PATH_MAX ==> !LeadsBack(c)
  {
    hide Accepted, CutsInside;
  }

  lemma NotAcceptedBelow(t: Tree, d: Path, c: Node)
    requires WellFormed(t) && c in ChildSet(t, d) && !ChildAccepted(t, c)
    ensures !AcceptedBelow(t, d)
  {
    hide WellFormed, AcceptedBelow, ChildAccepted;
    AcceptedByChildren(t, d);
  }

  /** Two children seen under one name: the path of one does not fit. */
  lemma ClashingChild(nodes: seq<Node>, d: Path) returns (c: Node)
    requires NoDup(nodes) && WellFormed(AsTree(nodes)) && !NamesApart(ChildNodes(nodes, d))
    ensures c in ChildNodes(nodes, d) && |c.path| >= PATH_MAX
  {
    hide ChildNodes, WellFormed, NoDup, Seen;
    var t, children := AsTree(nodes), ChildNodes(nodes, d);
    ListedChildren(nodes, t, d, children);
    var i, j :| 0 <= i < j < |children| && Seen(children[i]) == Seen(children[j]);
    assert children[i] in children && children[j] in children;
    if |children[i].path| >= PATH_MAX {
      c := children[i];
    } else {
      c := children[j];
      if |c.path| < PATH_MAX {
        SameSeen(t, d, children[i], c);
        NoDupDiffers(children, i, j);
      }
    }
  }

  lemma NoDupDiffers(nodes: seq<Node>, i: nat, j: nat)
    requires NoDup(nodes) && i < j < |nodes|
    ensures nodes[i].path != nodes[j].path
  {
  }

  lemma SameSeen(t: Tree, d: Path, a: Node, b: Node)
    requires WellFormed(t) && a in ChildSet(t, d) && b in ChildSet(t, d) && Seen(a) == Seen(b)
    requires |a.path| < PATH_MAX && |b.path| < PATH_MAX
    ensures a.path == b.path
  {
    NodeIsNormal(t, a);
    NodeIsNormal(t, b);
    NormalHasSlash(a.path);
    NormalHasSlash(b.path);
    PathParts(a.path);
    PathParts(b.path);
    hide Normal, WellFormed;
  }

  lemma {:induction false} RefusedChildHasCause(nodes: seq<Node>, d: Path, c: Node, n: nat)
    requires NoDup(nodes) && WellFormed(AsTree(nodes)) && c in ChildSet(AsTree(nodes), d) && |d| < PATH_MAX
    requires SnapsOne(nodes, c, n) == Some(false)
    ensures !AcceptedBelow(AsTree(nodes), d) && exists x :: Cause(AsTree(nodes), x)
    decreases n, 2
  {
    var t := AsTree(nodes);
    hide *;
    SnapsOneIs(nodes, c, n);
    SeenIs(c);
    ChildOf(t, d, c);
    AcceptedIs(t, c);
    CauseIs(t, c);
    if |c.path| < PATH_MAX {
      OwnPath(t, c);
      if c.dir && Snaps(nodes, c.path, n) == Some(false) && |Seen(c)| <= Names.NAME_MAX && |Seen(c)| != 0 {
        RefusedHasCause(nodes, c.path, n);
      } else {
        if !c.dir {
          FileReads(t, c);
        }
        if |Seen(c)| == 0 || |Seen(c)| > Names.NAME_MAX {
          LongIsRefused(Seen(c));
        }
      }
      NotAcceptedBelow(t, d, c);
    } else {
      NotAcceptedBelow(t, d, c);
      if LeadsBack(c) {
        LeadsBackParts(t, d, c);
        ItIsADir(c);
        LeadsBackShort(c);
        BackIsRefused(nodes, d, c, n);
        RefusedHasCause(nodes, Cut(c.path), n);
      }
    }
  }

  lemma LongIsRefused(name: seq<byte>)
    requires |name| == 0 || |name| > Names.NAME_MAX
    ensures !Names.ValidName(name)
  {
  }

  lemma LeadsBackShort(c: Node)
    requires LeadsBack(c)
    ensures |Seen(c)| <= Names.NAME_MAX
  {
    hide Seen;
  }

  /** Whenever storing ends: it succeeds exactly on a directory below which
      everything is accepted. */
  lemma SnapsAnswer(nodes: seq<Node>, path: Path, n: nat)
    requires NoDup(nodes) && WellFormed(AsTree(nodes)) && Snaps(nodes, path, n).Some?
    ensures Snaps(nodes, path, n) == Some(true) <==> ListCode(AsTree(nodes), path).OK? && AcceptedBelow(AsTree(nodes), DirOf(path))
  {
    hide *;
    if Snaps(nodes, path, n) == Some(true) {
      StoredIsAccepted(nodes, path, n);
    } else if ListCode(AsTree(nodes), path).OK? {
      EitherWay(Snaps(nodes, path, n));
      RefusedHasCause(nodes, path, n);
    }
  }

  lemma EitherWay(r: Option<bool>)
    requires r.Some?
    ensures r == Some(true) || r == Some(false)
  {
    assert r == Some(r.value);
    if r.value {
    } else {
    }
  }

  // ------------------------------------------------------------------
  // When it ends
  // ------------------------------------------------------------------

  ghost predicate Returns(t: Tree) { forall c :: c in t ==> !LeadsBack(c) }

  lemma {:induction false} AllEnds(nodes: seq<Node>, children: seq<Node>, n: nat)
    requires forall c :: c in children ==> SnapsOne(nodes, c, n).Some?
    ensures SnapsAll(nodes, children, n).Some?
    decreases |children|
  {
    hide SnapsOne;
    if children != [] {
      AllEnds(nodes, children[1..], n);
    }
  }

  /** Where no directory leads back the recursion ends: each path is longer than
      the one before. */
  lemma {:induction false} StoringEnds(nodes: seq<Node>, path: Path, n: nat)
    requires NoDup(nodes) && WellFormed(AsTree(nodes)) && Returns(AsTree(nodes)) && n + |DirOf(path)| >= PATH_MAX
    ensures Snaps(nodes, path, n).Some?
    decreases n
  {
    var t, d := AsTree(nodes), DirOf(path);
    hide *;
    ListedDir(t, path);
    SnapsIs(nodes, path, n);
    var children := ChildNodes(nodes, d);
    if ListCode(t, path).OK? {
      forall c | c in children
        ensures SnapsOne(nodes, c, n - 1).Some?
      {
        ListedChild(nodes, d, c);
        ChildOf(t, d, c);
        SnapsOneIs(nodes, c, n - 1);
        if c.dir && Seen(c) != [] && |Seen(c)| <= Names.NAME_MAX {
          DirToVisit(t, c);
          StoringEnds(nodes, Cut(c.path), n - 1);
        }
      }
      AllEnds(nodes, children, n - 1);
    }
  }

  /** The path of a directory about to be visited. */
  lemma DirToVisit(t: Tree, c: Node)
    requires WellFormed(t) && Returns(t) && c in t && c.dir && |Stem(c.path)| < PATH_MAX
    requires Seen(c) != [] && |Seen(c)| <= Names.NAME_MAX
    ensures DirOf(Cut(c.path)) == Cut(c.path) && |Cut(c.path)| > |Stem(c.path)|
  {
    NodeIsNormal(t, c);
    NormalHasSlash(c.path);
    if |c.path| >= PATH_MAX {
      assert !LeadsBack(c);
      hide Normal, Component, Normalized;
      CutIsNormal(c.path);
    }
    hide Normal, Normalized;
    NormalIsFixed(Cut(c.path));
    NormalNotRoot(Cut(c.path));
  }

  /** Where everything is accepted or leads back, storing the root ends exactly
      when nothing leads back: one directory that does is enough to keep the
      code going for ever. */
  lemma StoringEndsIff(nodes: seq<Node>)
    requires NoDup(nodes) && WellFormed(AsTree(nodes)) && forall c :: c in nodes ==> Accepted(c) || LeadsBack(c)
    ensures (exists n :: Snaps(nodes, ROOT, n).Some?) <==> AllAccepted(AsTree(nodes))
  {
    var t := AsTree(nodes);
    hide *;
    RootCode(t);
    AcceptedTree(t);
    InTree(nodes);
    if n :| Snaps(nodes, ROOT, n).Some? {
      SnapsAnswer(nodes, ROOT, n);
      EitherWay(Snaps(nodes, ROOT, n));
      if Snaps(nodes, ROOT, n) == Some(false) {
        RefusedHasCause(nodes, ROOT, n);
        var x :| Cause(t, x);
        CauseIs(t, x);
      }
    }
    if AllAccepted(t) {
      AcceptedReturns(t);
      StoringEnds(nodes, ROOT, PATH_MAX);
    }
  }

  lemma InTree(nodes: seq<Node>)
    ensures forall c :: c in AsTree(nodes) <==> c in nodes
  {
  }

  lemma AcceptedReturns(t: Tree)
    requires AllAccepted(t)
    ensures Returns(t)
  {
    hide Names.ValidName;
  }

  /** One child: its name tested, its blob stored or its directory visited, its
      entry made. */
  method SnapChild(fs: Vfs, st: Store, useHtree: bool, c: Node, ghost n: nat, ghost all: set<Object>) returns (e: Option<Entry>)
    requires fs.Valid() && Ready(st.hash, st.objects, all, Brief(fs.T()), useHtree) && c in fs.T()
    requires |Stem(c.path)| < PATH_MAX && SnapsOne(fs.nodes, c, n).Some?
    modifies st
    ensures Grows(old(st.objects), st.objects) && Trusted(st.hash, st.objects, all)
    ensures e.Some? <==> SnapsOne(fs.nodes, c, n) == Some(true)
    ensures Snappable(Brief(fs.T()))
    ensures e.Some? ==> EntryMade(st.hash, fs.T(), c, e.value) && ChildStored(st.hash, st.objects, fs.T(), c)
    decreases n, 1
  {
    hide *;
    ghost var t, s, before := fs.T(), Brief(fs.T()), st.objects;
    ReadyParts(st.hash, before, all, s, useHtree);
    ValidParts(fs);
    GrowsItself(before);
    SnapsOneIs(fs.nodes, c, n);
    var name := Base(Cut(c.path));
    SeenIs(c);
    CutBaseIsPlain(t, c);
    if |name| == 0 || |name| > Names.NAME_MAX {
      return None;
    }
    var hash: Digest;
    if c.dir {
      var sub := SnapDir(fs, st, useHtree, Cut(c.path), n, all);
      if sub.None? {
        return None;
      }
      hash := sub.value;
      if |c.path| < PATH_MAX {
        OwnPath(t, c);
      }
    } else {
      var code, data := fs.ReadFile(Cut(c.path));
      if code != OK {
        return None;
      }
      ghost var x := ReadNode(t, Cut(c.path), data);
      BlobTrusted(st.hash, before, all, s, x, useHtree);
      PutGrows(before, st.hash(BlobOf(x)), BlobOf(x));
      hash := st.Put(Object(BLOB, data));
      if |c.path| < PATH_MAX {
        OwnFile(t, c, data);
      }
    }
    var ok := NameAccepted(name);
    if !ok {
      return None;
    }
    e := Some(Entry(name, ModeOf(c), c.owner, 0, c.mtime, 0, HexEncode(hash)));
    ChildMade(st.hash, st.objects, t, c, hash, e.value);
  }

  lemma ValidParts(fs: Vfs)
    requires fs.Valid()
    ensures NoDup(fs.nodes) && WellFormed(fs.T()) && fs.T() == AsTree(fs.nodes)
  {
    hide NoDup, WellFormed, Wrap, Total;
  }

  lemma SeenIs(c: Node)
    ensures Seen(c) == Base(Cut(c.path)) && (|c.path| < PATH_MAX ==> Cut(c.path) == c.path)
  {
    hide Base;
  }

  lemma SnapsOneIs(nodes: seq<Node>, c: Node, n: nat)
    ensures var name := Seen(c); var r := SnapsOne(nodes, c, n);
            if |name| == 0 || |name| > Names.NAME_MAX then r == Some(false)
            else if c.dir then r == var q := Snaps(nodes, Cut(c.path), n); if q == Some(true) then Some(Names.ValidName(name)) else q
            else r == Some(ReadCode(AsTree(nodes), Cut(c.path)).OK? && Names.ValidName(name))
  {
    hide Seen, Cut, Snaps, ReadCode, Names.ValidName;
  }

  /** A path that fits is cut nowhere and means its node. */
  lemma OwnPath(t: Tree, c: Node)
    requires WellFormed(t) && c in t && |c.path| < PATH_MAX
    ensures DirOf(c.path) == c.path && Normalized(c.path) == Some(c.path)
    ensures c.dir ==> ListCode(t, c.path).OK?
  {
    NodeIsNormal(t, c);
    hide Normal, Normalized, WellFormed;
    NormalIsFixed(c.path);
    NormalNotRoot(c.path);
    WellFormedAt(t, c);
  }

  lemma OwnFile(t: Tree, c: Node, data: seq<byte>)
    requires WellFormed(t) && c in t && !c.dir && |c.path| < PATH_MAX && Normalized(Cut(c.path)).Some?
    requires ReadCode(t, Cut(c.path)).OK? && data == At(t, Normalized(Cut(c.path)).value).value.data
    ensures Object(BLOB, data) == BlobOf(c)
  {
    hide Normalized, WellFormed, At;
    FileReads(t, c);
  }

  /** The entry of a child that was stored at this address. */
  lemma ChildMade(hash: HashFn, objects: map<Digest, Object>, t: Tree, c: Node, addr: Digest, e: Entry)
    requires WellFormed(t) && Snappable(Brief(t)) && c in t && Names.ValidName(Seen(c))
    requires e == Entry(Seen(c), ModeOf(c), c.owner, 0, c.mtime, 0, HexEncode(addr))
    requires |c.path| < PATH_MAX ==>
               if c.dir then AcceptedBelow(t, c.path) && addr == DirDigest(hash, Brief(t), c.path) && Present(hash, objects, Brief(t), c.path)
               else addr == hash(BlobOf(c)) && addr in objects
    ensures EntryMade(hash, t, c, e) && ChildStored(hash, objects, t, c)
  {
    LowerIsHash(HexEncode(addr));
    hide WellFormed, Snappable, Names.ValidName, AcceptedBelow, DirDigest, Present, HexEncode, IsHash, IsLowerHash, Base;
  }

  /** What a successful read has read. */
  lemma ReadNode(t: Tree, path: Path, data: seq<byte>) returns (x: Node)
    requires ReadCode(t, path).OK? && data == At(t, Normalized(path).value).value.data
    ensures x in Brief(t) && !x.dir && BlobOf(x) == Object(BLOB, data)
    ensures Normalized(path) == Some(x.path)
  {
    x := At(t, Normalized(path).value).value;
    NormalizedIsShort(path);
  }

  lemma BlobTrusted(hash: HashFn, objects: map<Digest, Object>, all: set<Object>, t: Tree, c: Node, useHtree: bool)
    requires Ready(hash, objects, all, t, useHtree) && c in t && !c.dir
    ensures Trusted(hash, objects[hash(BlobOf(c)) := BlobOf(c)], all)
  {
    hide WellFormed, DirDigest, FormsFit;
    PutTrusted(hash, objects, all, BlobOf(c), BlobOf(c));
  }

  /** The entries made so far. */
  ghost predicate Made(hash: HashFn, t: Tree, children: seq<Node>, dir: seq<Entry>)
    requires Snappable(Brief(t))
  {
    |dir| == |children| && forall i :: 0 <= i < |dir| ==> EntryMade(hash, t, children[i], dir[i])
  }

  ghost predicate EntryMade(hash: HashFn, t: Tree, c: Node, e: Entry)
    requires Snappable(Brief(t))
  {
    && e.name == Seen(c) && IsHash(e.hash)
    && (|c.path| < PATH_MAX ==> c in Brief(t) && e == EntryOf(hash, Brief(t), c))
  }

  /** What is stored of a child that fits. */
  ghost predicate ChildStored(hash: HashFn, objects: map<Digest, Object>, t: Tree, c: Node)
    requires Snappable(Brief(t))
  {
    |c.path| < PATH_MAX ==> ChildAccepted(t, c) && c in Brief(t) && ChildPresent(hash, objects, Brief(t), c)
  }

  lemma GrownStored(hash: HashFn, a: map<Digest, Object>, b: map<Digest, Object>, t: Tree, c: Node)
    requires Snappable(Brief(t)) && Grows(a, b) && ChildStored(hash, a, t, c)
    ensures ChildStored(hash, b, t, c)
  {
    hide ChildPresent, Grows, ChildAccepted, Snappable, Brief;
    if |c.path| < PATH_MAX {
      GrownPresent(hash, a, b, Brief(t), c);
    }
  }

  /** snap_dir: blobs and subdirectories first, then the directory that lists
      them.  Whenever its recursion ends it succeeds exactly when the path is a
      directory's and the tree layer accepts every node below, and then the whole
      snapshot is in the store at the address the tree alone determines. */
  method SnapDir(fs: Vfs, st: Store, useHtree: bool, path: Path, ghost n: nat, ghost all: set<Object>) returns (r: Option<Digest>)
    requires fs.Valid() && Ready(st.hash, st.objects, all, Brief(fs.T()), useHtree)
    requires Snaps(fs.nodes, path, n).Some?
    modifies st
    ensures Grows(old(st.objects), st.objects) && Trusted(st.hash, st.objects, all)
    ensures r.Some? <==> Snaps(fs.nodes, path, n) == Some(true)
    ensures r.Some? <==> ListCode(fs.T(), path).OK? && AcceptedBelow(fs.T(), DirOf(path))
    ensures Snappable(Brief(fs.T())) && |DirOf(path)| < PATH_MAX
    ensures r.Some? ==> var d := DirOf(path);
                        r.value == DirDigest(st.hash, Brief(fs.T()), d) && Present(st.hash, st.objects, Brief(fs.T()), d)
    decreases n, 0
  {
    hide *;
    ghost var t, s, d := fs.T(), Brief(fs.T()), DirOf(path);
    ReadyParts(st.hash, st.objects, all, s, useHtree);
    ValidParts(fs);
    GrowsItself(st.objects);
    SnapsIs(fs.nodes, path, n);
    SnapsAnswer(fs.nodes, path, n);
    ListedDir(t, path);
    var code, children := fs.ListDir(path);
    if code != OK {
      return None;
    }
    ListedChildren(fs.nodes, t, d, children);
    var dir: seq<Entry> := [];
    NothingMade(st.hash, t);
    assert children[..0] == [] && children[0..] == children;
    for i := 0 to |children|
      invariant fs.Valid() && fs.T() == t && Ready(st.hash, st.objects, all, s, useHtree)
      invariant Grows(old(st.objects), st.objects) && Trusted(st.hash, st.objects, all)
      invariant Made(st.hash, t, children[..i], dir)
      invariant forall k :: 0 <= k < i ==> ChildStored(st.hash, st.objects, t, children[k])
      invariant SnapsAll(fs.nodes, children[i..], n - 1) == SnapsAll(fs.nodes, children, n - 1)
    {
      ghost var before := st.objects;
      assert children[i] in children;
      ChildOf(t, d, children[i]);
      assert children[i..][1..] == children[i + 1..];
      SnapsHead(fs.nodes, children[i..], n - 1);
      var e := SnapChild(fs, st, useHtree, children[i], n - 1, all);
      StillReady(st.hash, before, st.objects, all, s, useHtree);
      GrowsTransitive(old(st.objects), before, st.objects);
      if e.None? {
        return None;
      }
      forall k | 0 <= k < i
        ensures ChildStored(st.hash, st.objects, t, children[k])
      {
        GrownStored(st.hash, before, st.objects, t, children[k]);
      }
      MadeStep(st.hash, t, children, i, dir, e.value);
      dir := dir + [e.value];
    }
    assert children[..|children|] == children && children[|children|..] == [];
    SnapsNone(fs.nodes, n - 1);
    ghost var before := st.objects;
    r := StoreDir(st, useHtree, d, children, dir, t, all);
    GrowsTransitive(old(st.objects), before, st.objects);
  }

  lemma SnapsIs(nodes: seq<Node>, path: Path, n: nat)
    ensures Snaps(nodes, path, n).Some? ==> n > 0
    ensures n > 0 ==>
              var children := ChildNodes(nodes, DirOf(path));
              Snaps(nodes, path, n)
              == if !ListCode(AsTree(nodes), path).OK? then Some(false)
                 else if SnapsAll(nodes, children, n - 1) == Some(true) then Some(NamesApart(children))
                 else SnapsAll(nodes, children, n - 1)
  {
    hide ListCode, ChildNodes, DirOf, SnapsAll, NamesApart;
  }

  lemma SnapsHead(nodes: seq<Node>, children: seq<Node>, n: nat)
    requires children != []
    ensures SnapsAll(nodes, children, n)
            == var r := SnapsOne(nodes, children[0], n); if r == Some(true) then SnapsAll(nodes, children[1..], n) else r
  {
    hide SnapsOne;
  }

  lemma SnapsNone(nodes: seq<Node>, n: nat)
    ensures SnapsAll(nodes, [], n) == Some(true)
  {
  }

  lemma ChildOf(t: Tree, d: Path, c: Node)
    requires c in ChildSet(t, d)
    ensures c in t && Stem(c.path) == d
  {
  }

  lemma ListedDir(t: Tree, path: Path)
    requires WellFormed(t)
    ensures |DirOf(path)| < PATH_MAX
    ensures ListCode(t, path).OK? ==> IsDirOf(t, DirOf(path))
    ensures ListCode(t, path).OK? ==>
              Normalized(path).Some? && DirOf(path) == if Normalized(path).value == ROOT then [] else Normalized(path).value
  {
    hide Normalized, WellFormed;
    if Normalized(path).Some? {
      NormalizedIsShort(path);
      if ListCode(t, path).OK? && Normalized(path).value != ROOT {
        var m := At(t, Normalized(path).value).value;
        NodeIsNormal(t, m);
        NormalNotRoot(m.path);
      }
    }
  }

  lemma NothingMade(hash: HashFn, t: Tree)
    requires Snappable(Brief(t))
    ensures Made(hash, t, [], [])
  {
    hide Snappable;
  }

  lemma MadeStep(hash: HashFn, t: Tree, children: seq<Node>, i: nat, dir: seq<Entry>, e: Entry)
    requires Snappable(Brief(t)) && i < |children| && Made(hash, t, children[..i], dir) && EntryMade(hash, t, children[i], e)
    ensures Made(hash, t, children[..i + 1], dir + [e])
  {
    hide EntryMade, Snappable;
    assert children[..i + 1] == children[..i] + [children[i]];
  }

  /** The last step of snap_dir: cas_tree_store.  It refuses the directory
      exactly when two children are seen under one name. */
  method StoreDir(st: Store, useHtree: bool, ghost d: Path, ghost children: seq<Node>, dir: seq<Entry>, ghost t: Tree,
        ghost all: set<Object>) returns (r: Option<Digest>)
    requires WellFormed(t) && Ready(st.hash, st.objects, all, Brief(t), useHtree) && IsDirOf(t, d) && |d| < PATH_MAX
    requires Snappable(Brief(t)) && Made(st.hash, t, children, dir) && NoDup(children)
    requires forall n :: n in children <==> n in ChildSet(t, d)
    requires forall k :: 0 <= k < |children| ==> ChildStored(st.hash, st.objects, t, children[k])
    requires NamesApart(children) ==> AcceptedBelow(t, d)
    modifies st
    ensures Grows(old(st.objects), st.objects) && Trusted(st.hash, st.objects, all)
    ensures r.Some? <==> NamesApart(children)
    ensures r.Some? ==> r.value == DirDigest(st.hash, Brief(t), d) && Present(st.hash, st.objects, Brief(t), d)
  {
    hide *;
    ghost var before, s := st.objects, Brief(t);
    MadeIsHashed(st.hash, t, children, dir);
    ReadyParts(st.hash, before, all, s, useHtree);
    GrowsItself(before);
    var stored, sorted := TreeStore(st, useHtree, dir);
    r := stored;
    if r.Some? {
      AllFit(st.hash, t, d, children, dir);
      DirStored(st.hash, before, st.objects, all, t, d, children, dir, sorted, useHtree, r.value);
    }
  }

  lemma MadeIsHashed(hash: HashFn, t: Tree, children: seq<Node>, dir: seq<Entry>)
    requires Snappable(Brief(t)) && Made(hash, t, children, dir)
    ensures Htree.Hashed(dir) && (DistinctNames(dir) <==> NamesApart(children))
  {
    hide EntryOf, Snappable, Brief, IsHash, Seen;
    forall i | 0 <= i < |dir|
      ensures IsHash(dir[i].hash) && dir[i].name == Seen(children[i])
    {
      assert EntryMade(hash, t, children[i], dir[i]);
    }
  }

  /** With every child accepted the entries are those of the directory. */
  lemma AllFit(hash: HashFn, t: Tree, d: Path, children: seq<Node>, dir: seq<Entry>)
    requires WellFormed(t) && Snappable(Brief(t)) && Made(hash, t, children, dir) && AcceptedBelow(t, d)
    requires forall n :: n in children <==> n in ChildSet(t, d)
    ensures EntriesOf(hash, Brief(t), children, dir)
    ensures forall k :: 0 <= k < |children| ==> |children[k].path| < PATH_MAX
    ensures forall n :: n in children <==> n in ChildSet(Brief(t), d)
  {
    hide EntryOf, WellFormed, Short, AcceptedBelow, ChildAccepted;
    AcceptedByChildren(t, d);
    forall n | n in children
      ensures n in Brief(t) && |n.path| < PATH_MAX
    {
      AcceptedParts(t, n);
    }
    forall i | 0 <= i < |dir|
      ensures children[i] in Brief(t) && dir[i] == EntryOf(hash, Brief(t), children[i])
    {
      assert children[i] in children;
      assert EntryMade(hash, t, children[i], dir[i]);
    }
  }

  lemma AcceptedParts(t: Tree, c: Node)
    requires ChildAccepted(t, c)
    ensures Names.ValidName(Base(c.path)) && |c.path| < PATH_MAX
  {
    hide Names.ValidName, AcceptedBelow;
  }

  lemma DirStored(hash: HashFn, before: map<Digest, Object>, after: map<Digest, Object>, all: set<Object>, t: Tree,
        d: Path, children: seq<Node>, dir: seq<Entry>, sorted: seq<Entry>, useHtree: bool, addr: Digest)
    requires WellFormed(t) && Ready(hash, before, all, Brief(t), useHtree) && IsDirOf(t, d) && |d| < PATH_MAX
    requires Snappable(Brief(t)) && EntriesOf(hash, Brief(t), children, dir) && NoDup(children) && Htree.Hashed(sorted)
    requires forall n :: n in children <==> n in ChildSet(Brief(t), d)
    requires forall k :: 0 <= k < |children| ==> |children[k].path| < PATH_MAX && ChildStored(hash, before, t, children[k])
    requires Ascending(sorted) && SameEntries(sorted, dir) && addr == TreeAddress(hash, sorted)
    requires after == if addr in before then before else before[addr := TreeObject(sorted, useHtree)]
    ensures Grows(before, after) && Trusted(hash, after, all)
    ensures addr == DirDigest(hash, Brief(t), d) && Present(hash, after, Brief(t), d)
  {
    hide *;
    BriefDir(t, d);
    ChildrenStored(hash, before, t, children);
    ListingStored(hash, before, after, all, Brief(t), d, children, dir, sorted, useHtree, addr);
  }

  lemma ChildrenStored(hash: HashFn, objects: map<Digest, Object>, t: Tree, children: seq<Node>)
    requires Snappable(Brief(t))
    requires forall k :: 0 <= k < |children| ==> |children[k].path| < PATH_MAX && ChildStored(hash, objects, t, children[k])
    ensures forall n :: n in children ==> n in Brief(t)
    ensures forall n :: n in children ==> Names.ValidName(Base(n.path)) && ChildPresent(hash, objects, Brief(t), n)
  {
    hide *;
    forall n | n in children
      ensures n in Brief(t) && Names.ValidName(Base(n.path)) && ChildPresent(hash, objects, Brief(t), n)
    {
      var k :| 0 <= k < |children| && children[k] == n;
      StoredParts(hash, objects, t, children[k]);
    }
  }

  lemma StoredParts(hash: HashFn, objects: map<Digest, Object>, t: Tree, c: Node)
    requires Snappable(Brief(t)) && ChildStored(hash, objects, t, c) && |c.path| < PATH_MAX
    ensures c in Brief(t) && Names.ValidName(Base(c.path)) && ChildPresent(hash, objects, Brief(t), c)
  {
    hide Snappable, ChildPresent, ChildAccepted;
    AcceptedParts(t, c);
  }

  lemma ListingStored(hash: HashFn, before: map<Digest, Object>, after: map<Digest, Object>, all: set<Object>, s: Tree,
        d: Path, children: seq<Node>, dir: seq<Entry>, sorted: seq<Entry>, useHtree: bool, addr: Digest)
    requires Ready(hash, before, all, s, useHtree) && IsDirOf(s, d) && |d| < PATH_MAX
    requires Snappable(s) && EntriesOf(hash, s, children, dir) && NoDup(children) && Htree.Hashed(sorted)
    requires forall n :: n in children <==> n in ChildSet(s, d)
    requires forall n :: n in children ==> n in s
    requires forall n :: n in children ==> Names.ValidName(Base(n.path)) && ChildPresent(hash, before, s, n)
    requires Ascending(sorted) && SameEntries(sorted, dir) && addr == TreeAddress(hash, sorted)
    requires after == if addr in before then before else before[addr := TreeObject(sorted, useHtree)]
    ensures Grows(before, after) && Trusted(hash, after, all)
    ensures addr == DirDigest(hash, s, d) && Present(hash, after, s, d)
  {
    hide Normal, AllowedPath, WellFormed, NoDup, Below, Present, NoClash, HexEncode, Names.ValidName, Trusted,
      Grows, ChildPresent, Short, IsDirOf, Covers, FormsFit, EntryOf, Under, EntriesOf, TreeObject, Canonical,
      LowerHashes, Htree.Hashed, HtreeRead.Fits, Serialize, SameEntries, SnapListing, Ascending, ListObject, EntrySet, Lists;
    SortedIsListing(hash, s, d, children, dir, sorted);
    ListingIsCanonical(hash, s, dir, children, sorted);
    FitsWhenTable(hash, s, useHtree, d);
    StoredFormReads(sorted, useHtree);
    ListingCovered(all, hash, s, d);
    PutTrusted(hash, before, all, ListingText(sorted), TreeObject(sorted, useHtree));
    PutGrows(before, addr, TreeObject(sorted, useHtree));
    forall c | c in ChildSet(s, d)
      ensures ChildPresent(hash, after, s, c)
    {
      assert c in children;
      GrownPresent(hash, before, after, s, c);
    }
    PresentByChildren(hash, after, s, d);
  }

  lemma BriefDir(t: Tree, d: Path)
    requires IsDirOf(t, d) && |d| < PATH_MAX
    ensures IsDirOf(Brief(t), d)
  {
    if d != [] {
      var m :| m in t && m.path == d && m.dir;
      assert m in Brief(t);
    }
  }

  lemma FitsWhenTable(hash: HashFn, t: Tree, useHtree: bool, d: Path)
    requires Snappable(t) && FormsFit(hash, t, useHtree) && IsDirOf(t, d) && |d| < PATH_MAX && Htree.Hashed(SnapListing(hash, t, d))
    ensures useHtree ==> HtreeRead.Fits(SnapListing(hash, t, d))
  {
    hide SnapListing, WellFormed, Short, Htree.Hashed, HtreeRead.Fits, DirAt;
  }

  lemma ListingCovered(all: set<Object>, hash: HashFn, t: Tree, d: Path)
    requires Snappable(t) && Covers(all, hash, t) && IsDirOf(t, d) && |d| < PATH_MAX
    ensures ListingText(SnapListing(hash, t, d)) in all
  {
    hide SnapListing, WellFormed, Short, Serialize, DirAt;
  }

  lemma ReadyParts(hash: HashFn, objects: map<Digest, Object>, all: set<Object>, t: Tree, useHtree: bool)
    requires Ready(hash, objects, all, t, useHtree)
    ensures Snappable(t) && Trusted(hash, objects, all)
  {
  }

  lemma ListedChildren(nodes: seq<Node>, t: Tree, d: Path, children: seq<Node>)
    requires NoDup(nodes) && t == AsTree(nodes) && children == ChildNodes(nodes, d)
    ensures NoDup(children) && forall n :: n in children <==> n in ChildSet(t, d)
  {
    ChildNodesDistinct(nodes, d);
    hide NoDup;
  }

  /** vfs_snap_store: whenever the call ends, a snapshot is taken exactly of the
      trees all of whose nodes the tree layer accepts; one with a path that does
      not fit is refused. */
  method SnapStore(fs: Vfs, st: Store, useHtree: bool, ghost n: nat, ghost all: set<Object>) returns (r: Option<Digest>)
    requires fs.Valid() && Ready(st.hash, st.objects, all, Brief(fs.T()), useHtree)
    requires Snaps(fs.nodes, ROOT, n).Some?
    modifies st
    ensures Grows(old(st.objects), st.objects) && Trusted(st.hash, st.objects, all)
    ensures r.Some? <==> AllAccepted(fs.T())
    ensures r.Some? ==>
              Snappable(fs.T()) && Brief(fs.T()) == fs.T()
              && r.value == DirDigest(st.hash, fs.T(), []) && Present(st.hash, st.objects, fs.T(), [])
  {
    hide *;
    ghost var t := fs.T();
    ValidParts(fs);
    BriefIsSnappable(t);
    RootCode(t);
    AcceptedTree(t);
    r := SnapDir(fs, st, useHtree, ROOT, n, all);
  }

  lemma RootCode(t: Tree)
    ensures ListCode(t, ROOT).OK? && DirOf(ROOT) == [] && Normalized(ROOT) == Some(ROOT)
  {
    RootIsFixed();
    hide Normalized;
  }

  lemma AcceptedTree(t: Tree)
    ensures AcceptedBelow(t, []) <==> AllAccepted(t)
    ensures AllAccepted(t) ==> Short(t)
  {
    hide Names.ValidName;
  }
}
