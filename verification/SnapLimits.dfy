/** What the snapshot code's 4096-byte path buffers do to a comparison: a child's
    path is cut before its name is taken (vfs-snap.c: collect_child, fsck_dir). */
module SnapLimits {
  import opened Bytes
  import Names
  import opened VfsPath
  import opened VfsTree
  import opened Vfs
  import opened VfsShort
  import opened SnapSpec
  import opened Snap
  import opened Restore
  import opened SnapFsck

  const X: byte := 0x78
  const Y: byte := 0x79

  function Dir(p: Path): Node { Node(p, true, 0, 0, [], 0, 0) }

  /** A tree in which d is a directory with nothing in it, three bytes short of the
      limit. */
  ghost predicate AlmostFull(u: seq<Node>, d: Path)
  {
    && NoDup(u) && WellFormed(AsTree(u)) && DirAt(AsTree(u), d) && |d| == PATH_MAX - 3
    && forall n :: n in u ==> |n.path| <= |d| && Stem(n.path) != d
  }

  function ShortPath(d: Path): Path { Child(d, [X]) }

  function LongPath(d: Path): Path { Child(d, [X, Y]) }

  lemma NewPaths(u: seq<Node>, d: Path)
    requires AlmostFull(u, d)
    ensures Normal(d) && AllowedPath(d)
    ensures Normal(ShortPath(d)) && AllowedPath(ShortPath(d)) && |ShortPath(d)| == PATH_MAX - 1
    ensures Stem(ShortPath(d)) == d && Base(ShortPath(d)) == [X]
    ensures Normal(LongPath(d)) && AllowedPath(LongPath(d)) && Stem(LongPath(d)) == d && |LongPath(d)| == PATH_MAX
    ensures Cut(LongPath(d)) == ShortPath(d)
  {
    var m :| m in AsTree(u) && m.path == d && m.dir;
    assert Allowed(X) && Allowed(Y) && Allowed(SLASH);
    ChildParts(d, [X]);
    ChildParts(d, [X, Y]);
    NormalChild(d, [X]);
    NormalChild(d, [X, Y]);
  }

  lemma AddedDir(u: seq<Node>, p: Path)
    requires NoDup(u) && WellFormed(AsTree(u)) && Normal(p) && AllowedPath(p) && IsDirOf(AsTree(u), Stem(p))
    requires forall n :: n in u ==> n.path != p
    ensures NoDup(u + [Dir(p)]) && AsTree(u + [Dir(p)]) == AsTree(u) + {Dir(p)} && WellFormed(AsTree(u + [Dir(p)]))
  {
    hide Normal, AllowedPath, WellFormed, NoDup, Stem;
    Appended(u, Dir(p));
    AddNode(AsTree(u), Dir(p));
  }

  /** The snapshot has d/x; the filesystem lacks it and has d/xy, too long by one
      byte.  Its cut path makes it pass for d/x, and the comparison has nothing to
      report. */
  lemma OverlongIsMissed(u: seq<Node>, d: Path)
    requires AlmostFull(u, d)
    ensures var t := AsTree(u + [Dir(ShortPath(d))]); var w := u + [Dir(LongPath(d))];
            && Snappable(t) && NoDup(w) && WellFormed(AsTree(w))
            && Lost(t, w) == {} && Added(t, w) == {} && !SameTrees(t, AsTree(w))
  {
    hide *;
    NewPaths(u, d);
    BothTrees(u, d);
    NothingLost(u, d);
    NothingAdded(u, d);
    TwinIsMissing(u, d);
  }

  lemma BothTrees(u: seq<Node>, d: Path)
    requires AlmostFull(u, d)
    ensures Snappable(AsTree(u + [Dir(ShortPath(d))]))
    ensures NoDup(u + [Dir(LongPath(d))]) && WellFormed(AsTree(u + [Dir(LongPath(d))]))
  {
    NewPaths(u, d);
    hide Normal, AllowedPath, WellFormed, NoDup, Stem, Base, Child;
    AddedDir(u, ShortPath(d));
    AddedDir(u, LongPath(d));
  }

  lemma NothingLost(u: seq<Node>, d: Path)
    requires AlmostFull(u, d)
    ensures Lost(AsTree(u + [Dir(ShortPath(d))]), u + [Dir(LongPath(d))]) == {}
  {
    var b, w := Dir(ShortPath(d)), u + [Dir(LongPath(d))];
    NewPaths(u, d);
    BothTrees(u, d);
    TwinMatches(u, d);
    hide Normal, AllowedPath, WellFormed, NoDup, Stem, Matched, ShortPath, LongPath;
    forall n | n in AsTree(u + [b])
      ensures Matched(w, n)
    {
      if n != b {
        NodeMatches(w, n);
      }
    }
  }

  lemma NothingAdded(u: seq<Node>, d: Path)
    requires AlmostFull(u, d)
    ensures Added(AsTree(u + [Dir(ShortPath(d))]), u + [Dir(LongPath(d))]) == {}
  {
    var b, w := Dir(ShortPath(d)), u + [Dir(LongPath(d))];
    NewPaths(u, d);
    hide Normal, AllowedPath, WellFormed, NoDup, Stem, ShortPath, LongPath, IsDirOf;
    forall n | n in AsTree(w)
      ensures PathIn(AsTree(u + [b]), Cut(n.path))
    {
      assert b in AsTree(u + [b]);
      assert n in u ==> n in AsTree(u + [b]);
    }
  }

  lemma TwinIsMissing(u: seq<Node>, d: Path)
    requires AlmostFull(u, d)
    ensures !SameTrees(AsTree(u + [Dir(ShortPath(d))]), AsTree(u + [Dir(LongPath(d))]))
  {
    NewPaths(u, d);
    hide Normal, AllowedPath, WellFormed, NoDup, Stem, ShortPath, LongPath;
    var b, w := Dir(ShortPath(d)), AsTree(u + [Dir(LongPath(d))]);
    assert b in AsTree(u + [b]);
    assert forall m :: m in w ==> m.path != b.path;
    assert !Has(w, b);
  }

  lemma TwinMatches(u: seq<Node>, d: Path)
    requires AlmostFull(u, d)
    ensures Matched(u + [Dir(LongPath(d))], Dir(ShortPath(d)))
  {
    NewPaths(u, d);
    hide Normal, AllowedPath, WellFormed, NoDup, Stem, Base, FirstMatch, Child;
    var c := Dir(LongPath(d));
    var children := ChildNodes(u + [c], d);
    assert c in children && forall n :: n in children ==> n == c;
  }

  lemma NodeMatches(w: seq<Node>, n: Node)
    requires WellFormed(AsTree(w)) && n in AsTree(w) && |n.path| < PATH_MAX - 1
    ensures Matched(w, n)
  {
    NodeIsNormal(AsTree(w), n);
    MatchIsNode(w, n);
    hide Normal, WellFormed, FirstMatch;
    WellFormedAt(AsTree(w), n);
  }

  // ------------------------------------------------------------------
  // Such a tree, of names the tree layer accepts
  // ------------------------------------------------------------------

  lemma {:induction false} LettersAreText(s: seq<byte>)
    requires forall i :: 0 <= i < |s| ==> s[i] == X
    ensures Names.WellFormed(s)
    decreases |s|
  {
    if s != [] {
      LettersAreText(s[1..]);
    }
  }

  /** A chain of directories, each in the one before, down to d. */
  ghost predicate Chain(u: seq<Node>, d: Path)
  {
    && NoDup(u) && WellFormed(AsTree(u)) && IsDirOf(AsTree(u), d) && (d != [] ==> Normal(d)) && AllowedPath(d)
    && forall n :: n in u ==> |n.path| <= |d| && Accepted(n)
  }

  lemma LetterName(d: Path, len: nat)
    requires (d == [] || Normal(d)) && AllowedPath(d) && 0 < len <= Names.NAME_MAX && |d| + 1 + len < PATH_MAX
    ensures var e := Child(d, Letters(X, len));
            && Normal(e) && AllowedPath(e) && Stem(e) == d && |e| == |d| + 1 + len && Accepted(Dir(e))
  {
    var name := Letters(X, len);
    LettersAreComponent(X, len);
    LettersAreText(name);
    NormalChild(d, name);
    ChildParts(d, name);
    assert Allowed(X) && Allowed(SLASH);
    hide Normal, Allowed, Letters, Component, Names.WellFormed, Base, Stem;
    assert Names.ValidName(name);
  }

  lemma Lengthen(u: seq<Node>, d: Path, len: nat) returns (v: seq<Node>, e: Path)
    requires Chain(u, d) && 0 < len <= Names.NAME_MAX && |d| + 1 + len < PATH_MAX
    ensures Chain(v, e) && |e| == |d| + 1 + len && e != [] && DirAt(AsTree(v), e)
  {
    LetterName(d, len);
    e := Child(d, Letters(X, len));
    hide Normal, AllowedPath, WellFormed, NoDup, Stem, Letters, Accepted, Child;
    AddedDir(u, e);
    v := u + [Dir(e)];
    assert Dir(e) in AsTree(v);
  }

  lemma {:induction false} Deep(k: nat) returns (u: seq<Node>, d: Path)
    requires k <= 15
    ensures Chain(u, d) && |d| == 256 * k
    decreases k
  {
    if k == 0 {
      u, d := [], [];
    } else {
      hide Chain;
      var v, e := Deep(k - 1);
      u, d := Lengthen(v, e, 255);
    }
  }

  lemma ChainEnds(u: seq<Node>, d: Path)
    requires Chain(u, d) && DirAt(AsTree(u), d) && |d| == PATH_MAX - 3
    ensures AlmostFull(u, d)
  {
    hide Normal, AllowedPath, WellFormed, NoDup, Accepted;
    forall n | n in u
      ensures Stem(n.path) != d
    {
      assert |n.path| <= |d| && d != [];
      NodeIsNormal(AsTree(u), n);
      NormalHasSlash(n.path);
    }
  }

  lemma AllStored(u: seq<Node>, d: Path)
    requires Chain(u, d) && |d| == PATH_MAX - 3 && d != []
    ensures AllAccepted(AsTree(u + [Dir(ShortPath(d))]))
  {
    hide *;
    ChainParts(u, d);
    ShortPathAccepted(d);
    OneMoreAccepted(u, Dir(ShortPath(d)));
  }

  lemma ChainParts(u: seq<Node>, d: Path)
    requires Chain(u, d)
    ensures (d != [] ==> Normal(d)) && AllowedPath(d) && forall n :: n in u ==> Accepted(n)
  {
    hide WellFormed, NoDup, Accepted, IsDirOf, Normal, AllowedPath;
  }

  lemma ShortPathAccepted(d: Path)
    requires Normal(d) && AllowedPath(d) && |d| == PATH_MAX - 3
    ensures Accepted(Dir(ShortPath(d)))
  {
    LetterName(d, 1);
    OneLetter();
    hide *;
    ShortPathIs(d);
  }

  lemma OneLetter()
    ensures Letters(X, 1) == [X]
  {
  }

  lemma ShortPathIs(d: Path)
    ensures ShortPath(d) == Child(d, [X])
  {
  }

  lemma OneMoreAccepted(u: seq<Node>, n: Node)
    requires Accepted(n) && forall x :: x in u ==> Accepted(x)
    ensures AllAccepted(AsTree(u + [n]))
  {
    hide Accepted;
  }

  /** There is a tree that can be stored, and a filesystem that differs from it, on
      which the comparison reports nothing. */
  lemma FsckMissesAnOverlongDirectory()
    ensures exists t: Tree, w: seq<Node> ::
              && Snappable(t) && AllAccepted(t) && NoDup(w) && WellFormed(AsTree(w))
              && Lost(t, w) == {} && Added(t, w) == {} && !SameTrees(t, AsTree(w))
  {
    hide Chain, AlmostFull, Snappable, AllAccepted, NoDup, WellFormed, Lost, Added, SameTrees, ShortPath, LongPath, AsTree;
    var v, e := Deep(15);
    var u, d := Lengthen(v, e, 252);
    ChainEnds(u, d);
    OverlongIsMissed(u, d);
    AllStored(u, d);
  }

  // ------------------------------------------------------------------
  // When nothing is reported
  // ------------------------------------------------------------------

  /** The first node of the array that lies in the directory of p and whose path,
      as far as it fits the buffer, is p. */
  function FirstTaken(w: seq<Node>, p: Path): Option<Node>
  {
    if w == [] then None
    else if Stem(w[0].path) == Stem(p) && Cut(w[0].path) == p then Some(w[0])
    else FirstTaken(w[1..], p)
  }

  /** What is taken for b is of b's kind, and a file has its contents at b's path. */
  ghost predicate PassesFor(w: seq<Node>, b: Node)
  {
    var m := FirstTaken(w, b.path);
    m.Some? && m.value.dir == b.dir && (!b.dir ==> HasFile(AsTree(w), b))
  }

  lemma {:induction false} ChildNodesFront(w: seq<Node>, d: Path)
    requires w != []
    ensures ChildNodes(w, d) == (if Stem(w[0].path) == d then [w[0]] else []) + ChildNodes(w[1..], d)
    decreases |w|
  {
    hide Stem, ChildNodes;
    var n := |w| - 1;
    ChildNodesBack(w, d);
    if n > 0 {
      ChildNodesFront(w[..n], d);
      assert w[..n][1..] == w[1..][..n - 1];
      ChildNodesBack(w[1..], d);
    } else {
      NoChildNodes(w, d);
      assert w[1..] == w[..0];
    }
  }

  lemma ChildNodesBack(w: seq<Node>, d: Path)
    requires w != []
    ensures var n := |w| - 1; ChildNodes(w, d) == ChildNodes(w[..n], d) + if Stem(w[n].path) == d then [w[n]] else []
  {
    hide Stem;
  }

  lemma {:induction false} TakenIsMatch(w: seq<Node>, v: Tree, p: Path)
    requires WellFormed(v) && (forall c :: c in w ==> c in v) && Normal(p) && |Stem(p)| < PATH_MAX - 1
    ensures FirstTaken(w, p) == FirstMatch(ChildNodes(w, Stem(p)), Base(p))
    decreases |w|
  {
    hide *;
    if w == [] {
      NoneTaken(p);
    } else {
      var c, d := w[0], Stem(p);
      TakenIsMatch(w[1..], v, p);
      ChildNodesFront(w, d);
      SeenAtPath(v, c, p);
      FirstMatchHead(c, ChildNodes(w[1..], d), Base(p));
      TakenHead(w, p);
    }
  }

  lemma NoneTaken(p: Path)
    ensures FirstTaken([], p) == FirstMatch(ChildNodes([], Stem(p)), Base(p))
  {
    hide Stem, Base;
  }

  lemma TakenHead(w: seq<Node>, p: Path)
    requires w != []
    ensures FirstTaken(w, p)
            == if Stem(w[0].path) == Stem(p) && Cut(w[0].path) == p then Some(w[0]) else FirstTaken(w[1..], p)
  {
    hide Stem, Cut;
  }

  lemma FirstMatchHead(c: Node, rest: seq<Node>, name: seq<byte>)
    ensures FirstMatch([c] + rest, name) == if Seen(c) == name then Some(c) else FirstMatch(rest, name)
    ensures [] + rest == rest
  {
    hide Seen;
    assert ([c] + rest)[1..] == rest;
  }

  /** In one directory to be seen under a name is to have the path, cut. */
  lemma SeenAtPath(v: Tree, c: Node, p: Path)
    requires WellFormed(v) && c in v && Normal(p) && |Stem(p)| < PATH_MAX - 1
    ensures Stem(c.path) == Stem(p) ==> (Seen(c) == Base(p) <==> Cut(c.path) == p)
  {
    NormalHasSlash(p);
    PathParts(p);
    hide WellFormed, Normal;
    if Stem(c.path) == Stem(p) {
      SeenPath(v, c);
      if Seen(c) == Base(p) {
        assert Cut(c.path) == Child(Stem(p), Base(p));
      }
    }
  }

  lemma MatchedIsPassing(t: Tree, w: seq<Node>, b: Node)
    requires Snappable(t) && WellFormed(AsTree(w)) && b in t
    ensures Matched(w, b) <==> PassesFor(w, b)
  {
    hide *;
    NodeParts(t, b);
    StemIsShorter(b.path);
    InItsTree(w);
    TakenIsMatch(w, AsTree(w), b.path);
    MatchedIs(w, b);
    PassesIs(w, b);
  }

  lemma StemIsShorter(p: Path)
    requires Normal(p) && |p| < PATH_MAX
    ensures |Stem(p)| < PATH_MAX - 1
  {
    NormalHasSlash(p);
  }

  lemma InItsTree(w: seq<Node>)
    ensures forall c :: c in w <==> c in AsTree(w)
  {
  }

  lemma MatchedIs(w: seq<Node>, b: Node)
    ensures Matched(w, b) <==> var m := FirstMatch(ChildNodes(w, Stem(b.path)), Base(b.path));
                               m.Some? && m.value.dir == b.dir && (!b.dir ==> HasFile(AsTree(w), b))
  {
    hide FirstMatch, ChildNodes, HasFile, Stem, Base;
  }

  lemma PassesIs(w: seq<Node>, b: Node)
    ensures PassesFor(w, b) <==> var m := FirstTaken(w, b.path);
                                 m.Some? && m.value.dir == b.dir && (!b.dir ==> HasFile(AsTree(w), b))
  {
    hide FirstTaken, HasFile;
  }

  /** Below the longest length what passes for a node is that node. */
  lemma ShortMatchIsHas(t: Tree, w: seq<Node>, b: Node)
    requires Snappable(t) && WellFormed(AsTree(w)) && b in t && |b.path| < PATH_MAX - 1
    ensures Matched(w, b) <==> Has(AsTree(w), b)
  {
    NodeParts(t, b);
    MatchIsNode(w, b);
    DirsAreEmpty(t, b);
    hide Normal, WellFormed, AllowedPath, FirstMatch, Short, Stem, Base;
    forall m | m in AsTree(w) && m.path == b.path
      ensures At(AsTree(w), b.path) == Some(m) && (m.dir ==> m.data == [])
    {
      WellFormedAt(AsTree(w), m);
      DirsAreEmpty(AsTree(w), m);
    }
  }

  lemma {:induction false} SilentHas(t: Tree, w: seq<Node>, b: Node)
    requires Snappable(t) && WellFormed(AsTree(w)) && Lost(t, w) == {} && b in t
    ensures Matched(w, b) && (|b.path| < PATH_MAX - 1 ==> Has(AsTree(w), b))
    decreases |b.path|
  {
    hide Snappable, Matched, Has, WellFormed, Normal;
    if Stem(b.path) != [] {
      var p := ParentOf(t, b);
      SilentHas(t, w, p);
      ParentIsShort(t, b);
      HasDir(AsTree(w), p);
    }
    assert b !in Lost(t, w);
    if |b.path| < PATH_MAX - 1 {
      ShortMatchIsHas(t, w, b);
    }
  }

  lemma ParentIsShort(t: Tree, b: Node)
    requires Snappable(t) && b in t
    ensures |Stem(b.path)| < PATH_MAX - 1
  {
    NodeParts(t, b);
    hide Normal, WellFormed, Short;
  }

  lemma {:induction false} SilentListed(t: Tree, w: seq<Node>, c: Node)
    requires Snappable(t) && WellFormed(AsTree(w)) && Lost(t, w) == {} && Added(t, w) == {}
    requires c in AsTree(w) && |Stem(c.path)| < PATH_MAX - 1
    ensures PathIn(t, Cut(c.path))
    decreases |c.path|
  {
    hide Snappable, Lost, WellFormed, Normal, Matched, Cut;
    if Stem(c.path) != [] {
      var p := DirAbove(AsTree(w), c);
      SilentListed(t, w, p);
      FitsUncut(p);
      var b :| b in t && b.path == p.path;
      SilentHas(t, w, b);
      HasSame(t, AsTree(w), b, p);
      HasDir(t, p);
    }
    assert c !in Added(t, w);
  }

  lemma DirAbove(w: Tree, c: Node) returns (p: Node)
    requires WellFormed(w) && c in w && Stem(c.path) != []
    ensures p in w && p.dir && p.path == Stem(c.path) && |p.path| < |c.path| && |Stem(p.path)| < |p.path|
  {
    ExistsUnderParent(w, c);
    NodeIsNormal(w, c);
    NormalHasSlash(c.path);
    p :| p in w && p.path == Stem(c.path) && p.dir;
    NodeIsNormal(w, p);
    NormalHasSlash(p.path);
  }

  lemma FitsUncut(p: Node)
    requires |p.path| < PATH_MAX
    ensures Cut(p.path) == p.path
  {
  }

  /** A comparison with any filesystem reports nothing exactly when the filesystem
      has every node of the snapshot whose path is below the longest length, takes
      for each node of the longest length something of its kind, with its contents
      if it is a file, and every node of it whose directory's children can be
      printed has, as far as its path fits, a path of the snapshot. */
  lemma SilentIff(t: Tree, w: seq<Node>)
    requires Snappable(t) && NoDup(w) && WellFormed(AsTree(w))
    ensures Lost(t, w) == {} && Added(t, w) == {} <==>
            && (forall b :: b in t && |b.path| < PATH_MAX - 1 ==> Has(AsTree(w), b))
            && (forall b :: b in t && |b.path| == PATH_MAX - 1 ==> PassesFor(w, b))
            && (forall c :: c in w && |Stem(c.path)| < PATH_MAX - 1 ==> PathIn(t, Cut(c.path)))
  {
    hide Snappable, WellFormed, Matched, Has, PassesFor, Stem, Cut, PathIn, NoDup, IsDirOf;
    InItsTree(w);
    if Lost(t, w) == {} && Added(t, w) == {} {
      forall b | b in t
        ensures |b.path| < PATH_MAX - 1 ==> Has(AsTree(w), b)
        ensures |b.path| == PATH_MAX - 1 ==> PassesFor(w, b)
      {
        SilentHas(t, w, b);
        MatchedIsPassing(t, w, b);
      }
      forall c | c in w && |Stem(c.path)| < PATH_MAX - 1
        ensures PathIn(t, Cut(c.path))
      {
        SilentListed(t, w, c);
      }
    }
    if (forall b :: b in t && |b.path| < PATH_MAX - 1 ==> Has(AsTree(w), b))
       && (forall b :: b in t && |b.path| == PATH_MAX - 1 ==> PassesFor(w, b))
       && (forall c :: c in w && |Stem(c.path)| < PATH_MAX - 1 ==> PathIn(t, Cut(c.path))) {
      forall b | b in t
        ensures Matched(w, b)
      {
        SnapNodeFits(t, b);
        if |b.path| < PATH_MAX - 1 {
          ShortMatchIsHas(t, w, b);
        } else {
          MatchedIsPassing(t, w, b);
        }
      }
      assert Lost(t, w) == {} && Added(t, w) == {};
    }
  }

  lemma SnapNodeFits(t: Tree, b: Node)
    requires Snappable(t) && b in t
    ensures |b.path| < PATH_MAX
  {
  }
}
