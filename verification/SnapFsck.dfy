/** Comparing a filesystem with a stored snapshot (vfs-snap.c: fsck_dir,
    vfs_snap_fsck). */
module SnapFsck {
  import opened Bytes
  import opened Entries
  import opened Objects
  import opened Directory
  import opened Depots
  import opened VfsPath
  import opened VfsTree
  import opened Vfs
  import opened SnapSpec
  import opened Snap
  import opened Restore

  // ------------------------------------------------------------------
  // What the comparison counts
  // ------------------------------------------------------------------

  /** The first child of that name, in the order of the node array. */
  function FirstMatch(children: seq<Node>, name: seq<byte>): (r: Option<Node>)
    ensures r.Some? ==> r.value in children && Seen(r.value) == name
    ensures r.None? ==> forall c :: c in children ==> Seen(c) != name
  {
    if children == [] then None
    else if Seen(children[0]) == name then Some(children[0])
    else FirstMatch(children[1..], name)
  }

  ghost predicate BlobMatches(hash: HashFn, w: Tree, p: Path, e: Entry)
  {
    ReadCode(w, p).OK?
    && HexEncode(hash(Object(BLOB, At(w, Normalized(p).value).value.data))) == e.hash
  }

  predicate HasName(dir: seq<Entry>, name: seq<byte>) { exists e :: e in dir && e.name == name }

  /** A child the snapshot lacks is reported unless its path is too long to
      print. */
  predicate TooLong(path: Path, name: seq<byte>)
  {
    (if path == ROOT then 1 + |name| else |path| + 1 + |name|) >= PATH_MAX
  }

  /** What fsck_dir reports here and below; None when its recursion goes deeper
      than n.  A directory that does not load, or that the filesystem cannot list,
      is passed over in silence. */
  ghost function Errors(hash: HashFn, d: Depot, n: nat, w: seq<Node>, path: Path, addr: Addr): Option<nat>
    decreases n, 0, 0
  {
    if n == 0 then None
    else
      match Load(d, addr)
      case Listing(dir) =>
        if !ListCode(AsTree(w), path).OK? then Some(0)
        else
          var children := ChildNodes(w, DirOf(path));
          Sum(EntriesErrors(hash, d, n - 1, w, path, children, dir), Some(AddedErrors(path, dir, children)))
      case _ => Some(0)
  }

  function Sum(a: Option<nat>, b: Option<nat>): Option<nat>
  {
    if a.None? || b.None? then None else Some(a.value + b.value)
  }

  lemma ErrorsAre(hash: HashFn, d: Depot, n: nat, w: seq<Node>, path: Path, addr: Addr)
    requires n > 0
    ensures Errors(hash, d, n, w, path, addr)
            == if !Load(d, addr).Listing? || !ListCode(AsTree(w), path).OK? then Some(0)
               else
                 var dir, children := Load(d, addr).dir, ChildNodes(w, DirOf(path));
                 Sum(EntriesErrors(hash, d, n - 1, w, path, children, dir), Some(AddedErrors(path, dir, children)))
  {
    hide Load, ListCode, EntriesErrors, AddedErrors, ChildNodes, DirOf;
  }

  lemma ErrorsNeedDepth(hash: HashFn, d: Depot, n: nat, w: seq<Node>, path: Path, addr: Addr)
    ensures Errors(hash, d, n, w, path, addr).Some? ==> n > 0
  {
    hide Load, ListCode, EntriesErrors, AddedErrors, ChildNodes, DirOf;
  }

  /** The loop over the entries */
  ghost function EntriesErrors(hash: HashFn, d: Depot, n: nat, w: seq<Node>, path: Path, children: seq<Node>,
        dir: seq<Entry>): Option<nat>
    decreases n, 2, |dir|
  {
    if dir == [] then Some(0)
    else Sum(EntryErrors(hash, d, n, w, path, children, dir[0]), EntriesErrors(hash, d, n, w, path, children, dir[1..]))
  }

  lemma EntriesHead(hash: HashFn, d: Depot, n: nat, w: seq<Node>, path: Path, children: seq<Node>, dir: seq<Entry>)
    ensures EntriesErrors(hash, d, n, w, path, children, dir)
            == if dir == [] then Some(0)
               else Sum(EntryErrors(hash, d, n, w, path, children, dir[0]), EntriesErrors(hash, d, n, w, path, children, dir[1..]))
  {
    hide EntryErrors, Sum;
  }

  ghost function EntryErrors(hash: HashFn, d: Depot, n: nat, w: seq<Node>, path: Path, children: seq<Node>, e: Entry): Option<nat>
    decreases n, 1, 0
  {
    match FirstMatch(children, e.name)
    case None => Some(1)
    case Some(c) =>
      if IsDirEntry(e) != c.dir then Some(1)
      else if IsDirEntry(e) then Errors(hash, d, n, w, SnapPath(path, e.name), e.hash)
      else Some(if BlobMatches(hash, AsTree(w), SnapPath(path, e.name), e) then 0 else 1)
  }

  /** The loop over the children */
  function AddedErrors(path: Path, dir: seq<Entry>, children: seq<Node>): nat
  {
    if children == [] then 0
    else
      var c := children[|children| - 1];
      AddedErrors(path, dir, children[..|children| - 1])
      + if HasName(dir, Seen(c)) || TooLong(path, Seen(c)) then 0 else 1
  }

  // ------------------------------------------------------------------
  // The code
  // ------------------------------------------------------------------

  /** The search for a child by name. */
  method FindChild(children: seq<Node>, name: seq<byte>) returns (i: int)
    ensures -1 <= i < |children|
    ensures FirstMatch(children, name) == if i < 0 then None else Some(children[i])
  {
    hide Seen;
    assert children[0..] == children;
    for j := 0 to |children|
      invariant FirstMatch(children[j..], name) == FirstMatch(children, name)
    {
      if Seen(children[j]) == name {
        return j;
      }
      assert children[j..][1..] == children[j + 1..];
    }
    return -1;
  }

  /** One entry of fsck_dir. */
  method CheckEntry(fs: Vfs, hash: HashFn, d: Depot, path: Path, children: seq<Node>, e: Entry, ghost n: nat)
    returns (errors: nat)
    requires fs.Valid() && EntryErrors(hash, d, n, fs.nodes, path, children, e).Some?
    ensures EntryErrors(hash, d, n, fs.nodes, path, children, e) == Some(errors)
    decreases n, 1
  {
    hide Vfs.Valid, Load, Errors, BlobMatches, SnapPath, Normalized, HexEncode, IsDirEntry, FirstMatch;
    var p := SnapPath(path, e.name);
    var i := FindChild(children, e.name);
    if i < 0 {
      return 1;
    }
    if IsDirEntry(e) != children[i].dir {
      return 1;
    }
    if IsDirEntry(e) {
      errors := FsckDir(fs, hash, d, p, e.hash, n);
    } else {
      var code, data := fs.ReadFile(p);
      BlobMatchesIs(hash, fs.T(), p, e, code, data);
      if code != OK {
        return 1;
      }
      return if HexEncode(hash(Object(BLOB, data))) == e.hash then 0 else 1;
    }
  }

  lemma BlobMatchesIs(hash: HashFn, w: Tree, p: Path, e: Entry, code: Code, data: seq<byte>)
    requires code == ReadCode(w, p) && (code.OK? ==> data == At(w, Normalized(p).value).value.data)
    ensures BlobMatches(hash, w, p, e) <==> code.OK? && HexEncode(hash(Object(BLOB, data))) == e.hash
  {
    hide HexEncode, Normalized;
  }

  /** fsck_dir with a callback that never stops it: whenever its recursion ends,
      exactly what it counts. */
  method FsckDir(fs: Vfs, hash: HashFn, d: Depot, path: Path, addr: Addr, ghost n: nat) returns (errors: nat)
    requires fs.Valid() && Errors(hash, d, n, fs.nodes, path, addr).Some?
    ensures Errors(hash, d, n, fs.nodes, path, addr) == Some(errors)
    decreases n, 0
  {
    hide *;
    errors := 0;
    ErrorsNeedDepth(hash, d, n, fs.nodes, path, addr);
    ErrorsAre(hash, d, n, fs.nodes, path, addr);
    match Load(d, addr)
    case Missing =>
    case WrongType =>
    case Corrupt =>
    case Listing(dir) =>
      ValidParts(fs);
      ListedDir(fs.T(), path);
      var code, children := fs.ListDir(path);
      if code != OK {
        return;
      }
      ghost var whole := EntriesErrors(hash, d, n - 1, fs.nodes, path, children, dir);
      assert dir[0..] == dir && children[..0] == [];
      SumParts(whole, Some(AddedErrors(path, dir, children)));
      for i := 0 to |dir|
        invariant whole.Some? && EntriesErrors(hash, d, n - 1, fs.nodes, path, children, dir[i..]).Some?
        invariant errors + EntriesErrors(hash, d, n - 1, fs.nodes, path, children, dir[i..]).value == whole.value
      {
        assert dir[i..][1..] == dir[i + 1..];
        EntriesHead(hash, d, n - 1, fs.nodes, path, children, dir[i..]);
        SumParts(EntryErrors(hash, d, n - 1, fs.nodes, path, children, dir[i]),
                 EntriesErrors(hash, d, n - 1, fs.nodes, path, children, dir[i + 1..]));
        var m := CheckEntry(fs, hash, d, path, children, dir[i], n - 1);
        errors := errors + m;
      }
      EntriesHead(hash, d, n - 1, fs.nodes, path, children, dir[|dir|..]);
      ghost var first := errors;
      NoErrors(path, dir);
      for j := 0 to |children|
        invariant errors == first + AddedErrors(path, dir, children[..j])
      {
        assert children[..j + 1][..j] == children[..j];
        LastError(path, dir, children[..j + 1]);
        var name := Seen(children[j]);
        if !HasName(dir, name) && !TooLong(path, name) {
          errors := errors + 1;
        }
      }
      assert children[..|children|] == children;
  }

  lemma SumParts(a: Option<nat>, b: Option<nat>)
    ensures Sum(a, b).Some? <==> a.Some? && b.Some?
    ensures a.Some? && b.Some? ==> Sum(a, b) == Some(a.value + b.value)
  {
  }

  // ------------------------------------------------------------------
  // The differences between two trees
  // ------------------------------------------------------------------

  ghost predicate HasFile(w: Tree, b: Node)
  {
    exists m :: m in w && m.path == b.path && !m.dir && m.data == b.data
  }

  /** The filesystem has what the comparison takes for b: the first child of its
      name is of its kind, and a file at its path has its contents. */
  ghost predicate Matched(w: seq<Node>, b: Node)
  {
    var m := FirstMatch(ChildNodes(w, Stem(b.path)), Base(b.path));
    m.Some? && m.value.dir == b.dir && (!b.dir ==> HasFile(AsTree(w), b))
  }

  /** The nodes of t not matched in w, where w has their directory. */
  ghost function Lost(t: Tree, w: seq<Node>): set<Node>
  {
    set b | b in t && IsDirOf(AsTree(w), Stem(b.path)) && !Matched(w, b)
  }

  ghost predicate PathIn(t: Tree, p: Path) { exists b :: b in t && b.path == p }

  /** The nodes of w in a directory of t, one whose children can be printed, under
      a path t does not have. */
  ghost function Added(t: Tree, w: seq<Node>): set<Node>
  {
    set c | c in AsTree(w) && |Stem(c.path)| < PATH_MAX - 1 && IsDirOf(t, Stem(c.path)) && !PathIn(t, Cut(c.path))
  }

  ghost function Within(s: set<Node>, d: Path): set<Node> { set x | x in s && Below(d, x.path) }

  /** Contents hash apart unless they are equal. */
  ghost predicate Comparable(hash: HashFn, all: set<Object>, t: Tree, w: Tree)
  {
    NoClash(hash, all) && (forall n :: n in t && !n.dir ==> BlobOf(n) in all) && (forall n :: n in w && !n.dir ==> BlobOf(n) in all)
  }

  /** A child's path, as its directory and the name it is known by. */
  lemma SeenPath(w: Tree, c: Node)
    requires WellFormed(w) && c in w && |Stem(c.path)| < PATH_MAX - 1
    ensures Cut(c.path) == Child(Stem(c.path), Seen(c)) && Stem(Cut(c.path)) == Stem(c.path)
    ensures |c.path| >= PATH_MAX ==> |Cut(c.path)| == PATH_MAX - 1
  {
    NodeIsNormal(w, c);
    NormalHasSlash(c.path);
    if |c.path| >= PATH_MAX {
      CutParts(c.path);
    } else {
      PathParts(c.path);
    }
  }

  /** Below the length where paths are cut, the match is the node at the path. */
  lemma MatchIsNode(w: seq<Node>, b: Node)
    requires WellFormed(AsTree(w)) && Normal(b.path) && (|b.path| < PATH_MAX - 1 || (|b.path| < PATH_MAX && Short(AsTree(w))))
    ensures FirstMatch(ChildNodes(w, Stem(b.path)), Base(b.path)) == At(AsTree(w), b.path)
  {
    NormalHasSlash(b.path);
    PathParts(b.path);
    hide Normal, WellFormed, FirstMatch, Stem, Base;
    var d, name := Stem(b.path), Base(b.path);
    var m, n := FirstMatch(ChildNodes(w, d), name), At(AsTree(w), b.path);
    if n.Some? {
      assert n.value in ChildNodes(w, d);
    }
    if m.Some? {
      SeenPath(AsTree(w), m.value);
      WellFormedAt(AsTree(w), m.value);
    }
  }

  // ------------------------------------------------------------------
  // The count is the number of differences
  // ------------------------------------------------------------------

  /** The stage of the comparison at d: a stored directory of t and a directory of
      w at the same path. */
  ghost predicate Stage(hash: HashFn, objects: map<Digest, Object>, all: set<Object>, t: Tree, w: seq<Node>, d: Path)
  {
    && Kept(hash, objects, all, t) && NoDup(w) && WellFormed(AsTree(w)) && Comparable(hash, all, t, AsTree(w))
    && IsDirOf(t, d) && IsDirOf(AsTree(w), d) && |d| < PATH_MAX - 1
    && forall n :: n in t && Below(d, n.path) ==> NodePresent(hash, objects, t, n)
  }

  lemma StageParts(hash: HashFn, objects: map<Digest, Object>, all: set<Object>, t: Tree, w: seq<Node>, d: Path)
    requires Stage(hash, objects, all, t, w, d)
    ensures Snappable(t) && WellFormed(t) && Short(t) && WellFormed(AsTree(w)) && NoDup(w)
    ensures IsDirOf(t, d) && IsDirOf(AsTree(w), d) && Kept(hash, objects, all, t) && Comparable(hash, all, t, AsTree(w))
    ensures |d| < PATH_MAX - 1
  {
    hide WellFormed, Short, Comparable, NoDup, IsDirOf, Covers, Trusted;
  }

  /** A child has an entry of its name exactly when t has its path. */
  lemma NameMeansPath(hash: HashFn, t: Tree, w: Tree, d: Path, dir: seq<Entry>, c: Node)
    requires Snappable(t) && |d| < PATH_MAX - 1 && Lists(dir, EntrySet(hash, t, d)) && WellFormed(w) && c in ChildSet(w, d)
    ensures HasName(dir, Seen(c)) <==> PathIn(t, Cut(c.path))
    ensures !TooLong(PathOf(d), Seen(c))
  {
    hide WellFormed, Short, EntrySet, EntryOf, Ascending, Base, Stem;
    SeenPath(w, c);
    if HasName(dir, Seen(c)) {
      var e :| e in dir && e.name == Seen(c);
      var b := NodeOfEntry(hash, t, d, e);
      assert b in t && b.path == Cut(c.path);
    }
    if PathIn(t, Cut(c.path)) {
      var b :| b in t && b.path == Cut(c.path);
      assert b in ChildSet(t, d);
      EntryListed(hash, t, d, b);
      EntryName(hash, t, b);
      assert EntryOf(hash, t, b) in dir;
    }
  }

  /** The children the comparison reports as added. */
  ghost function Here(s: set<Node>, d: Path): set<Node> { set x | x in s && Stem(x.path) == d }

  ghost function Among(s: set<Node>, children: seq<Node>): set<Node> { set x | x in s && x in children }

  lemma {:induction false} AddedIsCounted(hash: HashFn, t: Tree, w: seq<Node>, d: Path, dir: seq<Entry>, children: seq<Node>)
    requires Snappable(t) && |d| < PATH_MAX - 1 && Lists(dir, EntrySet(hash, t, d)) && WellFormed(AsTree(w)) && IsDirOf(t, d)
    requires NoDup(children) && forall c :: c in children ==> c in ChildSet(AsTree(w), d)
    ensures AddedErrors(PathOf(d), dir, children) == |Among(Added(t, w), children)|
    decreases |children|
  {
    hide *;
    if children == [] {
      NoErrors(PathOf(d), dir);
      AmongNone(Added(t, w));
    } else {
      var n := |children| - 1;
      var c := children[n];
      DropLast(children);
      assert forall x :: x in children[..n] ==> x in children;
      AddedIsCounted(hash, t, w, d, dir, children[..n]);
      assert c in children;
      NameMeansPath(hash, t, AsTree(w), d, dir, c);
      AddedIff(t, w, d, c);
      AmongStep(Added(t, w), children);
      LastError(PathOf(d), dir, children);
    }
  }

  lemma NoErrors(path: Path, dir: seq<Entry>)
    ensures AddedErrors(path, dir, []) == 0
  {
  }

  lemma LastError(path: Path, dir: seq<Entry>, children: seq<Node>)
    requires children != []
    ensures var n := |children| - 1; var c := children[n];
            AddedErrors(path, dir, children)
            == AddedErrors(path, dir, children[..n]) + if HasName(dir, Seen(c)) || TooLong(path, Seen(c)) then 0 else 1
  {
    hide HasName, TooLong, Seen;
  }

  lemma AmongNone(s: set<Node>)
    ensures Among(s, []) == {}
  {
  }

  lemma DropLast(children: seq<Node>)
    requires NoDup(children) && children != []
    ensures NoDup(children[..|children| - 1])
  {
  }

  lemma AmongStep(s: set<Node>, children: seq<Node>)
    requires NoDup(children) && children != []
    ensures var n := |children| - 1;
            |Among(s, children)| == |Among(s, children[..n])| + if children[n] in s then 1 else 0
  {
    var n := |children| - 1;
    var c, before := children[n], Among(s, children[..n]);
    assert c !in before;
    assert Among(s, children) == before + if c in s then {c} else {};
  }

  lemma AddedIff(t: Tree, w: seq<Node>, d: Path, c: Node)
    requires c in ChildSet(AsTree(w), d) && |d| < PATH_MAX - 1 && IsDirOf(t, d)
    ensures c in Added(t, w) <==> !PathIn(t, Cut(c.path))
  {
    hide PathIn, Cut, IsDirOf;
  }

  // ------------------------------------------------------------------
  // Where the differences are
  // ------------------------------------------------------------------

  ghost function AtBelow(s: set<Node>, p: Path): set<Node> { set x | x in s && AtOrUnder(p, x.path) }

  /** The differences at or below the entries, one entry at a time. */
  lemma SpreadSplits(s: set<Node>, d: Path, dir: seq<Entry>)
    requires dir != [] && PlainNames(dir) && ApartNames(dir)
    ensures |Spread(s, d, dir)| == |AtBelow(s, Child(d, dir[0].name))| + |Spread(s, d, dir[1..])|
    ensures PlainNames(dir[1..]) && ApartNames(dir[1..])
  {
    hide AtOrUnder, Child;
    var a, rest := AtBelow(s, Child(d, dir[0].name)), Spread(s, d, dir[1..]);
    forall x | x in a && x in rest
      ensures false
    {
      var j :| 0 <= j < |dir[1..]| && AtOrUnder(Child(d, dir[1..][j].name), x.path);
      assert dir[1..][j] == dir[j + 1];
      SiblingsApart(d, dir[0].name, dir[j + 1].name, x.path);
    }
    forall x
      ensures x in Spread(s, d, dir) <==> x in a || x in rest
    {
      if j :| 0 <= j < |dir| && AtOrUnder(Child(d, dir[j].name), x.path) {
        if j > 0 {
          assert dir[1..][j - 1] == dir[j];
        }
      }
      if j :| 0 <= j < |dir[1..]| && AtOrUnder(Child(d, dir[1..][j].name), x.path) {
        assert dir[j + 1] == dir[1..][j];
      }
    }
    assert Spread(s, d, dir) == a + rest;
    assert a * rest == {};
  }

  lemma LostIsSpread(hash: HashFn, t: Tree, w: seq<Node>, d: Path, dir: seq<Entry>)
    requires Snappable(t) && |d| < PATH_MAX && Lists(dir, EntrySet(hash, t, d))
    ensures Within(Lost(t, w), d) == Spread(Lost(t, w), d, dir)
  {
    SpreadIsBelow(hash, t, d, dir);
    hide Below, AtOrUnder, Matched, Lists, Snappable, IsDirOf, Child;
    forall x | x in Lost(t, w)
      ensures x in Within(Lost(t, w), d) <==> x in Spread(Lost(t, w), d, dir)
    {
      assert x in t;
      assert x in Spread(t, d, dir) <==> x in set m | m in t && Below(d, m.path);
    }
  }

  /** Below a directory that both trees have, an added node is a child or is below
      an entry. */
  lemma AddedIsSpread(hash: HashFn, t: Tree, w: seq<Node>, d: Path, dir: seq<Entry>)
    requires Snappable(t) && |d| < PATH_MAX - 1 && Lists(dir, EntrySet(hash, t, d)) && WellFormed(AsTree(w))
    ensures Within(Added(t, w), d) == Here(Added(t, w), d) + Spread(Added(t, w), d, dir)
    ensures Here(Added(t, w), d) * Spread(Added(t, w), d, dir) == {}
  {
    hide Below, AtOrUnder, Snappable, Child, Added, Lists;
    forall x | x in Added(t, w)
      ensures Below(d, x.path) <==> Stem(x.path) == d || x in Spread(Added(t, w), d, dir)
      ensures !(Stem(x.path) == d && x in Spread(Added(t, w), d, dir))
    {
      AddedPlace(hash, t, w, d, dir, x);
      if j :| 0 <= j < |dir| && AtOrUnder(Child(d, dir[j].name), x.path) {
        AddedNotAt(hash, t, w, d, dir, x, j);
      }
    }
  }

  lemma AddedParts(t: Tree, w: seq<Node>, x: Node)
    requires x in Added(t, w)
    ensures x in AsTree(w) && |Stem(x.path)| < PATH_MAX - 1 && IsDirOf(t, Stem(x.path)) && !PathIn(t, Cut(x.path))
  {
  }

  lemma AddedNotAt(hash: HashFn, t: Tree, w: seq<Node>, d: Path, dir: seq<Entry>, x: Node, j: nat)
    requires Snappable(t) && |d| < PATH_MAX && Lists(dir, EntrySet(hash, t, d)) && WellFormed(AsTree(w)) && x in Added(t, w)
    requires j < |dir| && AtOrUnder(Child(d, dir[j].name), x.path)
    ensures Stem(x.path) != d && Below(d, x.path)
  {
    hide WellFormed, EntrySet, Ascending, Added;
    AddedParts(t, w, x);
    var b := NodeOfEntry(hash, t, d, dir[j]);
    ShortNode(t, b);
    hide Short;
    ChildIsBelow(t, d, b);
    assert PathIn(t, Cut(b.path));
    BelowChild(t, d, b, x.path);
    NodeIsNormal(AsTree(w), x);
    hide Normal, Below;
    NormalHasSlash(x.path);
    UnderStem(b.path, x.path);
    UnderIsLonger(b.path, d);
    ChildIsLonger(t, d, b);
  }

  lemma ShortNode(t: Tree, b: Node)
    requires Snappable(t) && b in t
    ensures Cut(b.path) == b.path
  {
  }

  lemma AddedPlace(hash: HashFn, t: Tree, w: seq<Node>, d: Path, dir: seq<Entry>, x: Node)
    requires Snappable(t) && |d| < PATH_MAX && Lists(dir, EntrySet(hash, t, d)) && WellFormed(AsTree(w)) && x in Added(t, w)
    ensures Stem(x.path) == d ==> Below(d, x.path)
    ensures Below(d, x.path) && Stem(x.path) != d ==> exists j :: 0 <= j < |dir| && AtOrUnder(Child(d, dir[j].name), x.path)
  {
    hide WellFormed, EntrySet, Ascending, Added, Under;
    AddedParts(t, w, x);
    if Stem(x.path) == d {
      ChildIsBelow(AsTree(w), d, x);
    } else if Below(d, x.path) {
      var c := ChildOnPath(AsTree(w), d, x);
      NodeIsNormal(AsTree(w), x);
      hide Normal, Below;
      NormalHasSlash(x.path);
      UnderStem(c.path, x.path);
      DirIsNamed(AsTree(w), c);
      AncestorIsDir(t, c.path, Stem(x.path));
      var b :| b in t && b.path == c.path && b.dir;
      assert b in ChildSet(t, d);
      EntryListed(hash, t, d, b);
      assert EntryOf(hash, t, b) in dir;
      var j :| 0 <= j < |dir| && dir[j] == EntryOf(hash, t, b);
      assert AtOrUnder(Child(d, dir[j].name), x.path);
    }
  }

  /** What is at or above a directory is a directory. */
  lemma AncestorIsDir(t: Tree, a: Path, p: Path)
    requires WellFormed(t) && a != [] && IsDirOf(t, p) && (p == a || Under(a, p))
    ensures DirAt(t, a)
  {
    hide WellFormed;
    if p != a && !DirAt(t, a) {
      if p != [] {
        var m :| m in t && m.path == p && m.dir;
        NothingUnder(t, a, m);
      }
    }
  }

  // ------------------------------------------------------------------
  // One entry
  // ------------------------------------------------------------------

  /** Nothing differs below a path that is not a directory of both trees. */
  lemma NothingBelow(t: Tree, w: seq<Node>, p: Path)
    requires WellFormed(t) && WellFormed(AsTree(w)) && p != [] && !(DirAt(t, p) && DirAt(AsTree(w), p))
    ensures forall x :: x in Lost(t, w) || x in Added(t, w) ==> !Under(p, x.path)
  {
    hide WellFormed, Matched, PathIn, Under;
    forall x | (x in Lost(t, w) || x in Added(t, w)) && Under(p, x.path)
      ensures false
    {
      var v := if x in Lost(t, w) then t else AsTree(w);
      NodeIsNormal(v, x);
      hide Normal;
      NormalHasSlash(x.path);
      UnderStem(p, x.path);
      HasStem(v, x);
      AncestorIsDir(t, p, Stem(x.path));
      AncestorIsDir(AsTree(w), p, Stem(x.path));
    }
  }

  lemma HasStem(t: Tree, x: Node)
    requires WellFormed(t) && x in t
    ensures IsDirOf(t, Stem(x.path))
  {
    ExistsUnderParent(t, x);
  }

  /** At a directory path as long as paths can be there is nothing below to lose,
      and nothing added there can be printed. */
  lemma NothingBelowLongest(t: Tree, w: seq<Node>, p: Path)
    requires Snappable(t) && WellFormed(AsTree(w)) && |p| >= PATH_MAX - 1
    ensures forall x :: x in Lost(t, w) || x in Added(t, w) ==> !Under(p, x.path)
  {
    hide WellFormed, Matched, PathIn, IsDirOf;
    forall x | (x in Lost(t, w) || x in Added(t, w)) && Under(p, x.path)
      ensures false
    {
      if x in Added(t, w) {
        NodeIsNormal(AsTree(w), x);
        NormalHasSlash(x.path);
        UnderStem(p, x.path);
      }
    }
  }

  lemma EntryNode(hash: HashFn, t: Tree, d: Path, b: Node)
    requires Snappable(t) && |d| < PATH_MAX && b in ChildSet(t, d) && IsDirOf(t, d)
    ensures var e := EntryOf(hash, t, b);
            && e.name == Base(b.path) && b.path == Child(d, e.name) && d == Stem(b.path) && IsDirEntry(e) == b.dir
            && SnapPath(PathOf(d), e.name) == b.path
    ensures b in t && Normal(b.path) && b.path != [] && |d| < |b.path| < PATH_MAX && Below(d, b.path)
  {
    hide WellFormed, Short, EntryOf, Normal, AllowedPath;
    EntryName(hash, t, b);
    ModeTells(b);
    NodeParts(t, b);
    EntryListed(hash, t, d, b);
    DirFits(t, d);
    SnapPathIs(d, EntryOf(hash, t, b).name);
    ChildIsBelow(t, d, b);
  }

  /** What is at b itself. */
  lemma AtNode(t: Tree, w: seq<Node>, d: Path, b: Node)
    requires Snappable(t) && WellFormed(AsTree(w)) && b in ChildSet(t, d) && IsDirOf(AsTree(w), d)
    ensures AtBelow(Lost(t, w), b.path) == Within(Lost(t, w), b.path) + if Matched(w, b) then {} else {b}
    ensures AtBelow(Added(t, w), b.path) == Within(Added(t, w), b.path)
    ensures b !in Within(Lost(t, w), b.path)
  {
    hide WellFormed, Matched, IsDirOf;
    ShortNode(t, b);
    DirIsNamed(t, b);
    NotUnderItself(b.path);
    hide Under;
    forall x | x in Lost(t, w) && x.path == b.path
      ensures x == b
    {
      SamePathSameNode(t, x, b);
    }
    assert PathIn(t, Cut(b.path));
  }

  lemma BlobMatchesAt(hash: HashFn, w: Tree, p: Path, e: Entry)
    requires Normalized(p) == Some(p)
    ensures BlobMatches(hash, w, p, e)
            <==> At(w, p).Some? && !At(w, p).value.dir && HexEncode(hash(BlobOf(At(w, p).value))) == e.hash
  {
    hide At, Normalized, HexEncode;
  }

  lemma HasFileAt(w: Tree, b: Node)
    requires WellFormed(w)
    ensures HasFile(w, b) <==> At(w, b.path).Some? && !At(w, b.path).value.dir && At(w, b.path).value.data == b.data
  {
    hide WellFormed, At;
    if m :| m in w && m.path == b.path && !m.dir && m.data == b.data {
      WellFormedAt(w, m);
    }
  }

  lemma SameBlobs(hash: HashFn, all: set<Object>, b: Node, c: Node)
    requires NoClash(hash, all) && BlobOf(b) in all && BlobOf(c) in all
    ensures HexEncode(hash(BlobOf(b))) == HexEncode(hash(BlobOf(c))) <==> b.data == c.data
  {
    hide HexEncode, HexDecode;
    HexDecodeOfEncode(hash(BlobOf(b)));
    HexDecodeOfEncode(hash(BlobOf(c)));
  }

  lemma FileBlobs(hash: HashFn, all: set<Object>, t: Tree, w: Tree, b: Node, e: Entry)
    requires Comparable(hash, all, t, w) && Snappable(t) && WellFormed(w) && b in t && !b.dir && e == EntryOf(hash, t, b)
    ensures BlobMatches(hash, w, b.path, e) <==> HasFile(w, b)
  {
    NodeParts(t, b);
    EntryHash(hash, t, b);
    hide WellFormed, Snappable, NoClash, HexEncode, EntryOf, Normal, AllowedPath, At, BlobMatches, HasFile, BlobOf, Normalized;
    NormalIsFixed(b.path);
    BlobMatchesAt(hash, w, b.path, e);
    HasFileAt(w, b);
    if At(w, b.path).Some? && !At(w, b.path).value.dir {
      SameBlobs(hash, all, b, At(w, b.path).value);
    }
  }

  /** The comparison of an entry counts the differences at and below its node. */
  lemma {:induction false} EntryIsCounted(hash: HashFn, objects: map<Digest, Object>, all: set<Object>, t: Tree,
        w: seq<Node>, d: Path, n: nat, b: Node)
    requires Stage(hash, objects, all, t, w, d) && Snappable(t) && b in ChildSet(t, d) && b in t
    requires n + |d| + 1 >= PATH_MAX
    ensures EntryErrors(hash, AsDepot(objects), n, w, PathOf(d), ChildNodes(w, d), EntryOf(hash, t, b))
            == Some(|AtBelow(Lost(t, w), b.path)| + |AtBelow(Added(t, w), b.path)|)
    decreases PATH_MAX - |d|, 0
  {
    hide *;
    StageParts(hash, objects, all, t, w, d);
    EntryNode(hash, t, d, b);
    EntryHash(hash, t, b);
    AtNode(t, w, d, b);
    if !b.dir {
      FileBlobs(hash, all, t, AsTree(w), b, EntryOf(hash, t, b));
    }
    EntryErrorsAre(hash, AsDepot(objects), n, w, PathOf(d), b, EntryOf(hash, t, b));
    if !b.dir {
      NotADir(t, b);
      NothingBelow(t, w, b.path);
      NoneWithin(t, w, b.path);
    } else if Matched(w, b) {
      DirIsCounted(hash, objects, all, t, w, d, n, b);
    } else {
      if |b.path| >= PATH_MAX - 1 {
        NothingBelowLongest(t, w, b.path);
      } else {
        UnmatchedDir(w, b);
        NothingBelow(t, w, b.path);
      }
      NoneWithin(t, w, b.path);
    }
  }

  /** One entry's errors, told by whether its node is matched. */
  lemma EntryErrorsAre(hash: HashFn, d: Depot, n: nat, w: seq<Node>, path: Path, b: Node, e: Entry)
    requires e.name == Base(b.path) && IsDirEntry(e) == b.dir && SnapPath(path, e.name) == b.path
    requires !b.dir ==> (BlobMatches(hash, AsTree(w), b.path, e) <==> HasFile(AsTree(w), b))
    ensures EntryErrors(hash, d, n, w, path, ChildNodes(w, Stem(b.path)), e)
            == if !Matched(w, b) then Some(1) else if b.dir then Errors(hash, d, n, w, b.path, e.hash) else Some(0)
  {
    hide IsDirEntry, Base, Stem, SnapPath, BlobMatches, HasFile, FirstMatch, ChildNodes, Errors;
  }

  lemma NoneWithin(t: Tree, w: seq<Node>, p: Path)
    requires p != [] && forall x :: x in Lost(t, w) || x in Added(t, w) ==> !Under(p, x.path)
    ensures Within(Lost(t, w), p) == {} && Within(Added(t, w), p) == {}
  {
    hide Lost, Added, Under;
  }

  lemma NotADir(t: Tree, b: Node)
    requires WellFormed(t) && b in t && !b.dir
    ensures !DirAt(t, b.path)
  {
    hide Normal;
  }

  lemma UnmatchedDir(w: seq<Node>, b: Node)
    requires WellFormed(AsTree(w)) && Normal(b.path) && |b.path| < PATH_MAX - 1 && b.dir && !Matched(w, b)
    ensures !DirAt(AsTree(w), b.path)
  {
    MatchIsNode(w, b);
    hide Normal, WellFormed, FirstMatch;
    AtDir(AsTree(w), b.path);
  }

  /** A directory entry whose match is a directory: the recursive call. */
  lemma {:induction false} DirIsCounted(hash: HashFn, objects: map<Digest, Object>, all: set<Object>, t: Tree,
        w: seq<Node>, d: Path, n: nat, b: Node)
    requires Stage(hash, objects, all, t, w, d) && Snappable(t) && b in ChildSet(t, d) && b in t && b.dir && Matched(w, b)
    requires |d| < |b.path| < PATH_MAX && b.path != [] && Normal(b.path)
    requires n + |b.path| >= PATH_MAX
    ensures Errors(hash, AsDepot(objects), n, w, b.path, HexEncode(DirDigest(hash, t, b.path)))
            == Some(|Within(Lost(t, w), b.path)| + |Within(Added(t, w), b.path)|)
    decreases PATH_MAX - |b.path|, 3
  {
    hide *;
    StageParts(hash, objects, all, t, w, d);
    ChildIsPresent(hash, objects, all, t, w, d, b);
    if |b.path| < PATH_MAX - 1 {
      PathOfDir(b.path);
      ChildStage(hash, objects, all, t, w, d, b);
      DirErrorsAreCounted(hash, objects, all, t, w, b.path, n);
    } else {
      LongestIsSilent(hash, objects, all, t, w, b, n);
      NothingBelowLongest(t, w, b.path);
      NoneWithin(t, w, b.path);
    }
  }

  lemma ChildIsPresent(hash: HashFn, objects: map<Digest, Object>, all: set<Object>, t: Tree, w: seq<Node>, d: Path, b: Node)
    requires Stage(hash, objects, all, t, w, d) && Snappable(t) && b in ChildSet(t, d) && b in t && b.dir
    requires |b.path| < PATH_MAX
    ensures DirPresent(hash, objects, t, b.path)
  {
    hide Normal, WellFormed, Short, Below, NodePresent, Comparable, Kept, DirPresent;
    ChildIsBelow(t, d, b);
    assert NodePresent(hash, objects, t, b);
    PresentFile(hash, objects, t, b);
  }

  lemma ChildStage(hash: HashFn, objects: map<Digest, Object>, all: set<Object>, t: Tree, w: seq<Node>, d: Path, b: Node)
    requires Stage(hash, objects, all, t, w, d) && Snappable(t) && b in ChildSet(t, d) && b in t && b.dir && Matched(w, b)
    requires b.path != [] && |b.path| < PATH_MAX - 1
    ensures Stage(hash, objects, all, t, w, b.path)
  {
    hide *;
    StageParts(hash, objects, all, t, w, d);
    NodeIsNormal(t, b);
    MatchedDir(t, w, b);
    StagePresent(hash, objects, all, t, w, d);
    forall n | n in t && Below(b.path, n.path)
      ensures NodePresent(hash, objects, t, n)
    {
      BelowUnder(b.path, n.path);
      BelowChild(t, d, b, n.path);
    }
    StageIs(hash, objects, all, t, w, b.path);
  }

  lemma StagePresent(hash: HashFn, objects: map<Digest, Object>, all: set<Object>, t: Tree, w: seq<Node>, d: Path)
    requires Stage(hash, objects, all, t, w, d) && Snappable(t)
    ensures forall n :: n in t && Below(d, n.path) ==> NodePresent(hash, objects, t, n)
  {
    hide WellFormed, Short, Comparable, NoDup, IsDirOf, Covers, Trusted, NodePresent, Below;
  }

  lemma StageIs(hash: HashFn, objects: map<Digest, Object>, all: set<Object>, t: Tree, w: seq<Node>, d: Path)
    requires Kept(hash, objects, all, t) && NoDup(w) && WellFormed(AsTree(w)) && Comparable(hash, all, t, AsTree(w))
    requires IsDirOf(t, d) && IsDirOf(AsTree(w), d) && |d| < PATH_MAX - 1 && Snappable(t)
    requires forall n :: n in t && Below(d, n.path) ==> NodePresent(hash, objects, t, n)
    ensures Stage(hash, objects, all, t, w, d)
  {
    hide WellFormed, Short, Comparable, NoDup, IsDirOf, Covers, Trusted, NodePresent, Below;
  }

  lemma MatchedDir(t: Tree, w: seq<Node>, b: Node)
    requires WellFormed(AsTree(w)) && b in t && b.dir && Normal(b.path) && |b.path| < PATH_MAX - 1 && Matched(w, b)
    ensures IsDirOf(t, b.path) && IsDirOf(AsTree(w), b.path)
  {
    MatchIsNode(w, b);
    hide Normal, WellFormed, FirstMatch, Stem, Base;
    AtDir(AsTree(w), b.path);
  }

  lemma BelowUnder(c: Path, p: Path)
    requires Below(c, p) && c != []
    ensures Under(c, p)
  {
  }

  /** A directory at the longest path lists nothing, and nothing added to it can
      be printed. */
  lemma LongestIsSilent(hash: HashFn, objects: map<Digest, Object>, all: set<Object>, t: Tree, w: seq<Node>, b: Node, n: nat)
    requires Kept(hash, objects, all, t) && Snappable(t) && b in t && b.dir && |b.path| == PATH_MAX - 1 && n > 0
    requires DirPresent(hash, objects, t, b.path) && WellFormed(AsTree(w))
    ensures Errors(hash, AsDepot(objects), n, w, b.path, HexEncode(DirDigest(hash, t, b.path))) == Some(0)
  {
    hide Normal, AllowedPath, WellFormed, Short, EntryOf, Load, DirDigest, HexEncode, SnapListing, Canonical,
      ListCode, ChildNodes, Ascending, Kept, EntrySet;
    assert IsDirOf(t, b.path);
    DirLoads(hash, objects, all, t, b.path);
    NoEntriesAtLongest(hash, t, b.path);
    var dir := SnapListing(hash, t, b.path);
    HasFirst(dir);
    AllTooLong(b.path, dir, ChildNodes(w, DirOf(b.path)));
  }

  lemma HasFirst(dir: seq<Entry>)
    ensures dir == [] || exists e :: e in dir
  {
    if dir != [] {
      assert dir[0] in dir;
    }
  }

  lemma NoEntriesAtLongest(hash: HashFn, t: Tree, p: Path)
    requires Snappable(t) && |p| == PATH_MAX - 1
    ensures EntrySet(hash, t, p) == {}
  {
    hide EntryOf, WellFormed;
    forall c | c in ChildSet(t, p)
      ensures false
    {
      ChildIsLonger(t, p, c);
    }
  }

  lemma {:induction false} AllTooLong(path: Path, dir: seq<Entry>, children: seq<Node>)
    requires |path| == PATH_MAX - 1
    ensures AddedErrors(path, dir, children) == 0
    decreases |children|
  {
    hide Seen, HasName;
    if children != [] {
      AllTooLong(path, dir, children[..|children| - 1]);
    }
  }

  // ------------------------------------------------------------------
  // All entries
  // ------------------------------------------------------------------

  lemma {:induction false} EntriesAreCounted(hash: HashFn, objects: map<Digest, Object>, all: set<Object>, t: Tree,
        w: seq<Node>, d: Path, n: nat, dir: seq<Entry>)
    requires Stage(hash, objects, all, t, w, d) && Snappable(t) && |d| < PATH_MAX - 1 && n + |d| + 1 >= PATH_MAX
    requires PlainNames(dir) && ApartNames(dir) && forall e :: e in dir ==> e in EntrySet(hash, t, d)
    ensures EntriesErrors(hash, AsDepot(objects), n, w, PathOf(d), ChildNodes(w, d), dir)
            == Some(|Spread(Lost(t, w), d, dir)| + |Spread(Added(t, w), d, dir)|)
    decreases PATH_MAX - |d|, 1, |dir|
  {
    hide Normal, AllowedPath, WellFormed, Short, Stage, EntrySet, EntryOf, Snappable, PlainNames, ApartNames,
      EntryErrors, Lost, Added, ChildNodes, IsDirEntry, Spread, AtBelow, Child, PathOf, Base;
    if dir == [] {
      NothingSpreads(Lost(t, w), d);
      NothingSpreads(Added(t, w), d);
    } else {
      assert dir[0] in dir;
      assert forall e :: e in dir[1..] ==> e in dir;
      SpreadSplits(Lost(t, w), d, dir);
      SpreadSplits(Added(t, w), d, dir);
      var b := NodeOfEntry(hash, t, d, dir[0]);
      ChildOf(t, d, b);
      EntryIsCounted(hash, objects, all, t, w, d, n, b);
      EntriesAreCounted(hash, objects, all, t, w, d, n, dir[1..]);
    }
  }

  lemma NothingSpreads(s: set<Node>, d: Path)
    ensures Spread(s, d, []) == {}
  {
  }

  /** fsck_dir at a stored directory that the filesystem has counts exactly the
      differences below it. */
  lemma {:induction false} DirErrorsAreCounted(hash: HashFn, objects: map<Digest, Object>, all: set<Object>, t: Tree,
        w: seq<Node>, d: Path, n: nat)
    requires Stage(hash, objects, all, t, w, d) && Snappable(t) && |d| < PATH_MAX && DirPresent(hash, objects, t, d)
    requires n + |d| >= PATH_MAX
    ensures Errors(hash, AsDepot(objects), n, w, PathOf(d), HexEncode(DirDigest(hash, t, d)))
            == Some(|Within(Lost(t, w), d)| + |Within(Added(t, w), d)|)
    decreases PATH_MAX - |d|, 2
  {
    hide *;
    StageParts(hash, objects, all, t, w, d);
    var addr, dir, children := HexEncode(DirDigest(hash, t, d)), SnapListing(hash, t, d), ChildNodes(w, d);
    DirLoads(hash, objects, all, t, d);
    ListedDirOf(AsTree(w), d);
    ErrorsAre(hash, AsDepot(objects), n, w, PathOf(d), addr);
    PresentListing(hash, objects, t, d);
    ListedNames(hash, t, d, dir);
    EntriesAreCounted(hash, objects, all, t, w, d, n - 1, dir);
    SumParts(EntriesErrors(hash, AsDepot(objects), n - 1, w, PathOf(d), children, dir), Some(AddedErrors(PathOf(d), dir, children)));
    LostIsSpread(hash, t, w, d, dir);
    AddedIsSpread(hash, t, w, d, dir);
    ListedChildren(w, AsTree(w), d, children);
    AddedIsCounted(hash, t, w, d, dir, children);
    HereIs(t, w, d, children);
    PartsAdd(Within(Added(t, w), d), Here(Added(t, w), d), Spread(Added(t, w), d, dir));
  }

  lemma PartsAdd(s: set<Node>, a: set<Node>, b: set<Node>)
    requires s == a + b && a * b == {}
    ensures |s| == |a| + |b|
  {
  }

  lemma HereIs(t: Tree, w: seq<Node>, d: Path, children: seq<Node>)
    requires forall n :: n in children <==> n in ChildSet(AsTree(w), d)
    ensures Here(Added(t, w), d) == Among(Added(t, w), children)
  {
    hide Stem, PathIn, IsDirOf, Cut;
  }

  lemma ListedDirOf(w: Tree, d: Path)
    requires WellFormed(w) && IsDirOf(w, d) && |d| < PATH_MAX
    ensures DirOf(PathOf(d)) == d && ListCode(w, PathOf(d)).OK?
  {
    if d != [] {
      var m :| m in w && m.path == d && m.dir;
      NodeIsNormal(w, m);
    }
    hide Normalized, Normal, WellFormed;
    DirCode(w, d);
  }

  // ------------------------------------------------------------------
  // The whole comparison
  // ------------------------------------------------------------------

  /** vfs_snap_fsck of any filesystem against a stored snapshot counts one error
      for every node the filesystem lost, whatever was below it, and one for every
      node added to a directory of the snapshot. */
  lemma FsckCountsDifferences(hash: HashFn, objects: map<Digest, Object>, all: set<Object>, t: Tree, w: seq<Node>, n: nat)
    requires Kept(hash, objects, all, t) && Present(hash, objects, t, []) && n >= PATH_MAX
    requires NoDup(w) && WellFormed(AsTree(w)) && Comparable(hash, all, t, AsTree(w))
    ensures Errors(hash, AsDepot(objects), n, w, ROOT, HexEncode(DirDigest(hash, t, []))) == Some(|Lost(t, w)| + |Added(t, w)|)
  {
    hide WellFormed, Short, Covers, Trusted, NoClash, NodePresent, DirPresent, Errors, HexEncode, DirDigest,
      Lost, Added, Comparable, NoDup;
    DirErrorsAreCounted(hash, objects, all, t, w, [], n);
    assert Within(Lost(t, w), []) == Lost(t, w) && Within(Added(t, w), []) == Added(t, w);
  }

  /** The tree has a node of the same path, kind and contents. */
  ghost predicate Has(w: Tree, n: Node)
  {
    exists m :: m in w && m.path == n.path && m.dir == n.dir && m.data == n.data
  }

  ghost predicate SameTrees(t: Tree, w: Tree)
  {
    (forall n :: n in t ==> Has(w, n)) && (forall m :: m in w ==> Has(t, m))
  }

  lemma MatchedIsHas(t: Tree, w: seq<Node>, b: Node)
    requires Snappable(t) && Snappable(AsTree(w)) && b in t
    ensures Matched(w, b) <==> Has(AsTree(w), b)
  {
    NodeParts(t, b);
    MatchIsNode(w, b);
    DirsAreEmpty(t, b);
    hide Normal, WellFormed, AllowedPath, FirstMatch, Short, Stem, Base;
    forall m | m in AsTree(w) && m.path == b.path
      ensures At(AsTree(w), b.path) == Some(m) && (m.dir ==> m.data == [])
    {
      WellFormedAt(AsTree(w), m);
      DirsAreEmpty(AsTree(w), m);
    }
  }

  /** With no difference counted, every node of t is in w. */
  lemma {:induction false} NoneLost(t: Tree, w: seq<Node>, b: Node)
    requires Snappable(t) && Snappable(AsTree(w)) && Lost(t, w) == {} && b in t
    ensures Has(AsTree(w), b)
    decreases |b.path|
  {
    hide Snappable, Matched, Has;
    MatchedIsHas(t, w, b);
    if Stem(b.path) != [] {
      var p := ParentOf(t, b);
      NoneLost(t, w, p);
      HasDir(AsTree(w), p);
    }
    assert b !in Lost(t, w);
  }

  lemma ParentOf(t: Tree, b: Node) returns (p: Node)
    requires Snappable(t) && b in t && Stem(b.path) != []
    ensures p in t && p.dir && p.path == Stem(b.path) && |p.path| < |b.path|
  {
    ExistsUnderParent(t, b);
    NodeParts(t, b);
    p :| p in t && p.path == Stem(b.path) && p.dir;
  }

  lemma HasDir(w: Tree, p: Node)
    requires Has(w, p) && p.dir
    ensures DirAt(w, p.path)
  {
  }

  lemma {:induction false} NoneAdded(t: Tree, w: seq<Node>, c: Node)
    requires Snappable(t) && Snappable(AsTree(w)) && Lost(t, w) == {} && Added(t, w) == {} && c in AsTree(w)
    ensures Has(t, c)
    decreases |c.path|
  {
    ShortNode(AsTree(w), c);
    NodeParts(AsTree(w), c);
    hide Normal, AllowedPath, WellFormed, Short, Has, Lost, Cut, Stem;
    if Stem(c.path) != [] {
      var p := ParentOf(AsTree(w), c);
      NoneAdded(t, w, p);
      HasDir(t, p);
    }
    assert c !in Added(t, w);
    var b :| b in t && b.path == c.path;
    NoneLost(t, w, b);
    HasSame(t, AsTree(w), b, c);
  }

  lemma HasSame(t: Tree, w: Tree, b: Node, c: Node)
    requires WellFormed(w) && b in t && c in w && b.path == c.path && Has(w, b)
    ensures Has(t, c)
  {
    hide WellFormed;
    var m :| m in w && m.path == b.path && m.dir == b.dir && m.data == b.data;
    SamePathSameNode(w, m, c);
  }

  /** Between trees with short paths there is no difference to count exactly when
      they have the same paths, kinds and contents. */
  lemma NoDifferenceIffSame(t: Tree, w: seq<Node>)
    requires Snappable(t) && Snappable(AsTree(w))
    ensures |Lost(t, w)| + |Added(t, w)| == 0 <==> SameTrees(t, AsTree(w))
  {
    hide Snappable, Matched, Has;
    if SameTrees(t, AsTree(w)) {
      forall b | b in t
        ensures Matched(w, b)
      {
        MatchedIsHas(t, w, b);
      }
      forall c | c in AsTree(w)
        ensures PathIn(t, Cut(c.path))
      {
        ShortNode(AsTree(w), c);
        HasPath(t, c);
      }
      assert Lost(t, w) == {} && Added(t, w) == {};
    }
    if Lost(t, w) == {} && Added(t, w) == {} {
      forall b | b in t
        ensures Has(AsTree(w), b)
      {
        NoneLost(t, w, b);
      }
      forall c | c in AsTree(w)
        ensures Has(t, c)
      {
        NoneAdded(t, w, c);
      }
    }
  }

  lemma HasPath(t: Tree, c: Node)
    requires Has(t, c)
    ensures PathIn(t, c.path)
  {
  }

  /** vfs_snap_fsck of a filesystem with short paths reports nothing exactly when
      it holds the same paths, kinds and contents as the one that was stored. */
  lemma FsckIffSame(hash: HashFn, objects: map<Digest, Object>, all: set<Object>, t: Tree, w: seq<Node>, n: nat)
    requires Kept(hash, objects, all, t) && Present(hash, objects, t, []) && n >= PATH_MAX
    requires NoDup(w) && Snappable(AsTree(w)) && Comparable(hash, all, t, AsTree(w))
    ensures Errors(hash, AsDepot(objects), n, w, ROOT, HexEncode(DirDigest(hash, t, []))).Some?
    ensures Errors(hash, AsDepot(objects), n, w, ROOT, HexEncode(DirDigest(hash, t, []))) == Some(0) <==> SameTrees(t, AsTree(w))
  {
    hide *;
    KeptParts(hash, objects, all, t);
    SnappableIsWellFormed(AsTree(w));
    FsckCountsDifferences(hash, objects, all, t, w, n);
    NoDifferenceIffSame(t, w);
  }

  lemma SnappableIsWellFormed(t: Tree)
    requires Snappable(t)
    ensures WellFormed(t)
  {
    hide WellFormed;
  }

  /** vfs_snap_store, then vfs_snap_fsck of any filesystem, which may be the same
      one, against the resulting store.  Whenever the store ends and does not
      refuse the tree, what is counted is every difference; with short paths
      nothing is counted exactly when the trees are the same. */
  method StoreThenFsck(fs: Vfs, st: Store, useHtree: bool, other: Vfs, ghost n: nat, ghost all: set<Object>)
    returns (stored: bool, errors: nat)
    requires fs.Valid() && Ready(st.hash, st.objects, all, Brief(fs.T()), useHtree) && Snaps(fs.nodes, ROOT, n).Some?
    requires other.Valid() && Comparable(st.hash, all, fs.T(), other.T())
    modifies st
    ensures stored <==> AllAccepted(fs.T())
    ensures stored ==> errors == |Lost(fs.T(), other.nodes)| + |Added(fs.T(), other.nodes)|
    ensures stored && Short(other.T()) ==> (errors == 0 <==> SameTrees(fs.T(), other.T()))
  {
    hide *;
    ghost var t, before := fs.T(), st.objects;
    var root := SnapStore(fs, st, useHtree, n, all);
    if root.None? {
      return false, 0;
    }
    StillReady(st.hash, before, st.objects, all, Brief(t), useHtree);
    ReadyIsKept(st.hash, st.objects, all, t, useHtree);
    ValidParts(other);
    FsckCountsDifferences(st.hash, st.objects, all, t, other.nodes, PATH_MAX);
    if Short(other.T()) {
      ShortIsSnappable(other.T());
      NoDifferenceIffSame(t, other.nodes);
    }
    errors := FsckDir(other, st.hash, AsDepot(st.objects), ROOT, HexEncode(root.value), PATH_MAX);
    stored := true;
  }

  lemma ShortIsSnappable(t: Tree)
    requires WellFormed(t) && Short(t)
    ensures Snappable(t)
  {
    hide WellFormed, Short;
  }

  // ------------------------------------------------------------------
  // When the comparison ends
  // ------------------------------------------------------------------

  lemma {:induction false} AllEntriesEnd(hash: HashFn, d: Depot, n: nat, w: seq<Node>, path: Path, children: seq<Node>, dir: seq<Entry>)
    requires forall e :: e in dir ==> EntryErrors(hash, d, n, w, path, children, e).Some?
    ensures EntriesErrors(hash, d, n, w, path, children, dir).Some?
    decreases |dir|
  {
    hide EntryErrors;
    if dir != [] {
      AllEntriesEnd(hash, d, n, w, path, children, dir[1..]);
    }
  }

  /** Against any depot, even one with a directory inside itself, the comparison of
      a filesystem with short paths ends: each path is longer than the one before. */
  lemma {:induction false} ShortFsckEnds(hash: HashFn, d: Depot, n: nat, w: seq<Node>, p: Path, addr: Addr)
    requires NoDup(w) && Snappable(AsTree(w)) && IsDirOf(AsTree(w), p) && n + |p| >= PATH_MAX
    ensures Errors(hash, d, n, w, PathOf(p), addr).Some?
    decreases n
  {
    hide *;
    SnappableIsWellFormed(AsTree(w));
    DirFits(AsTree(w), p);
    ListedDirOf(AsTree(w), p);
    ErrorsAre(hash, d, n, w, PathOf(p), addr);
    if Load(d, addr).Listing? {
      var dir, children := Load(d, addr).dir, ChildNodes(w, p);
      forall e | e in dir
        ensures EntryErrors(hash, d, n - 1, w, PathOf(p), children, e).Some?
      {
        EntryEnds(hash, d, n - 1, w, PathOf(p), children, e);
        var m := FirstMatch(children, e.name);
        if m.Some? && m.value.dir {
          ListedChild(w, p, m.value);
          ChildIsShort(AsTree(w), p, m.value);
          SnapPathIs(p, e.name);
          PathOfDir(m.value.path);
          ShortFsckEnds(hash, d, n - 1, w, m.value.path, e.hash);
        }
      }
      AllEntriesEnd(hash, d, n - 1, w, PathOf(p), children, dir);
      SumParts(EntriesErrors(hash, d, n - 1, w, PathOf(p), children, dir), Some(AddedErrors(PathOf(p), dir, children)));
    }
  }

  /** An entry that the recursion does not follow ends at once. */
  lemma EntryEnds(hash: HashFn, d: Depot, n: nat, w: seq<Node>, path: Path, children: seq<Node>, e: Entry)
    ensures var m := FirstMatch(children, e.name);
            EntryErrors(hash, d, n, w, path, children, e).Some?
            <==> m.None? || !m.value.dir || !IsDirEntry(e) || Errors(hash, d, n, w, SnapPath(path, e.name), e.hash).Some?
    ensures var m := FirstMatch(children, e.name); m.Some? ==> m.value in children && Seen(m.value) == e.name
  {
    hide FirstMatch, IsDirEntry, Errors, BlobMatches, SnapPath, Seen;
  }

  lemma ChildIsShort(t: Tree, p: Path, c: Node)
    requires Snappable(t) && c in ChildSet(t, p)
    ensures |p| < |c.path| < PATH_MAX && c.path != [] && c.path == Child(p, Seen(c)) && (c.dir ==> IsDirOf(t, c.path))
  {
    NodeParts(t, c);
    NormalHasSlash(c.path);
    PathParts(c.path);
    ShortNode(t, c);
    hide Normal, WellFormed, Short;
  }

  /** And against a depot with no directory inside itself every comparison ends. */
  lemma {:induction false} AcyclicFsckEnds(hash: HashFn, d: Depot, rank: map<Addr, nat>, n: nat, w: seq<Node>, path: Path, addr: Addr)
    requires Acyclic(d, rank) && addr in rank && n > rank[addr]
    ensures Errors(hash, d, n, w, path, addr).Some?
    decreases n
  {
    hide *;
    ErrorsAre(hash, d, n, w, path, addr);
    if Load(d, addr).Listing? {
      var dir, children := Load(d, addr).dir, ChildNodes(w, DirOf(path));
      ListedAreRanked(d, rank, addr);
      forall e | e in dir
        ensures EntryErrors(hash, d, n - 1, w, path, children, e).Some?
      {
        EntryEnds(hash, d, n - 1, w, path, children, e);
        if IsDirEntry(e) {
          AcyclicFsckEnds(hash, d, rank, n - 1, w, SnapPath(path, e.name), e.hash);
        }
      }
      AllEntriesEnd(hash, d, n - 1, w, path, children, dir);
      SumParts(EntriesErrors(hash, d, n - 1, w, path, children, dir), Some(AddedErrors(path, dir, children)));
    }
  }
}
