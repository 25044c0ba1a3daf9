/** Which paths a filesystem can come to hold: every call checks the paths it is
    given, but a rename rewrites the paths of whole subtrees (vfs.c). */
module VfsShort {
  import opened Bytes
  import opened Entries
  import opened VfsPath
  import opened VfsTree
  import opened Vfs

  /** No argument of a call normalizes to p. */
  ghost predicate Unnamed(p: Path) { forall path :: Normalized(path) != Some(p) }

  lemma OverlongIsUnnamed(p: Path)
    requires |p| >= PATH_MAX
    ensures Unnamed(p)
  {
    hide Normalized;
    forall path
      ensures Normalized(path) != Some(p)
    {
      if Normalized(path).Some? {
        NormalizedIsShort(path);
      }
    }
  }

  // ------------------------------------------------------------------
  // The calls that keep every path short
  // ------------------------------------------------------------------

  lemma WriteStaysShort(t: Tree, path: Path, data: seq<byte>, create: bool, k: Maker, now: Int64, over: bool)
    requires WellFormed(t) && Short(t)
    ensures Short(Write(t, path, data, create, k, now, over).tree)
  {
    WriteKeeps(t, path, data, create, k, now, over);
    WriteNeedsPath(t, path, data, create, k, now, over);
    hide Write, WellFormed, Normalized;
    if Write(t, path, data, create, k, now, over).code == OK {
      NormalizedIsShort(path);
    }
  }

  lemma WriteNeedsPath(t: Tree, path: Path, data: seq<byte>, create: bool, k: Maker, now: Int64, over: bool)
    ensures Write(t, path, data, create, k, now, over).code == OK ==> Normalized(path).Some?
  {
    hide Normalized;
  }

  lemma MkdirStaysShort(t: Tree, path: Path, create: bool, k: Maker, now: Int64)
    requires WellFormed(t) && Short(t)
    ensures Short(Mkdir(t, path, create, k, now).tree)
  {
    MkdirKeeps(t, path, create, k, now);
    MkdirNeedsPath(t, path, create, k, now);
    hide Mkdir, WellFormed, Normalized;
    if Mkdir(t, path, create, k, now).code == OK {
      NormalizedIsShort(path);
    }
  }

  lemma MkdirNeedsPath(t: Tree, path: Path, create: bool, k: Maker, now: Int64)
    ensures Mkdir(t, path, create, k, now).code == OK ==> Normalized(path).Some?
  {
    hide Normalized;
  }

  /** Every call but a rename. */
  lemma CallStaysShort(t: Tree, c: Call, k: Maker, over: bool)
    requires WellFormed(t) && Short(t) && !c.DoRename?
    ensures Short(Effect(t, c, k, over).tree)
  {
    hide WellFormed, Normalized, Write, Mkdir;
    match c
    case DoWrite(path, data, create, now) => WriteStaysShort(t, path, data, create, k, now, over);
    case DoMkdir(path, create, now) => MkdirStaysShort(t, path, create, k, now);
    case DoCopy(a, b, create, now) =>
      if Normalized(a).Some? && At(t, Normalized(a).value).Some? {
        WriteStaysShort(t, b, At(t, Normalized(a).value).value.data, create, k, now, over);
      }
    case _ =>
  }

  // ------------------------------------------------------------------
  // Renames
  // ------------------------------------------------------------------

  /** Everything at or below o is still short once o has become p. */
  ghost predicate MoveFits(t: Tree, o: Path, p: Path)
  {
    forall m :: m in t && (m.path == o || Under(o, m.path)) ==> |p| + |m.path| - |o| < PATH_MAX
  }

  /** A rename of o to another path p keeps every path short exactly when what
      lies below o leaves room for the change in length. */
  lemma RenameStaysShort(t: Tree, oldPath: Path, newPath: Path, now: Int64)
    requires WellFormed(t) && Short(t) && Rename(t, oldPath, newPath, now).code == OK
    requires Normalized(oldPath).value != Normalized(newPath).value
    ensures Short(Rename(t, oldPath, newPath, now).tree)
            <==> MoveFits(t, Normalized(oldPath).value, Normalized(newPath).value)
  {
    RenamedTree(t, oldPath, newPath, now);
    hide *;
    var o, p := Normalized(oldPath).value, Normalized(newPath).value;
    SourceStays(t, o, p);
    MovedIsShort(t, Vacated(t, p), o, p, now);
  }

  lemma SourceStays(t: Tree, o: Path, p: Path)
    requires o != p && !Under(o, p)
    ensures Vacated(t, p) <= t
    ensures forall m :: m in t && (m.path == o || Under(o, m.path)) ==> m in Vacated(t, p)
  {
    hide Under;
  }

  lemma MovedIsShort(t: Tree, u: Tree, o: Path, p: Path, now: Int64)
    requires Short(t) && u <= t && forall m :: m in t && (m.path == o || Under(o, m.path)) ==> m in u
    ensures Short(MovedTree(u, o, p, now)) <==> MoveFits(t, o, p)
  {
    hide Under;
    var v := MovedTree(u, o, p, now);
    if MoveFits(t, o, p) {
      forall n | n in v
        ensures |n.path| < PATH_MAX
      {
        var m :| m in u && MovedNode(m, o, p, now) == n;
        MovedLength(m, o, p, now);
        assert m in t;
      }
    }
    if Short(v) {
      forall m | m in t && (m.path == o || Under(o, m.path))
        ensures |p| + |m.path| - |o| < PATH_MAX
      {
        MovedLength(m, o, p, now);
        assert MovedNode(m, o, p, now) in v;
      }
    }
  }

  lemma MovedLength(m: Node, o: Path, p: Path, now: Int64)
    ensures |MovedNode(m, o, p, now).path|
            == if m.path == o || Under(o, m.path) then |p| + |m.path| - |o| else |m.path|
  {
  }

  /** A node that is not given room is still there, where no call can name it. */
  lemma RenameHides(t: Tree, oldPath: Path, newPath: Path, now: Int64, m: Node)
    requires WellFormed(t) && m in t && Rename(t, oldPath, newPath, now).code == OK
    requires Normalized(oldPath).value != Normalized(newPath).value
    requires var o := Normalized(oldPath).value;
             (m.path == o || Under(o, m.path)) && |Normalized(newPath).value| + |m.path| - |o| >= PATH_MAX
    ensures exists n :: n in Rename(t, oldPath, newPath, now).tree && n.dir == m.dir && n.data == m.data && Unnamed(n.path)
  {
    hide *;
    RenameNeedsPaths(t, oldPath, newPath, now);
    var o, p := Normalized(oldPath).value, Normalized(newPath).value;
    UnderIsLonger(o, m.path);
    RenameMoves(t, oldPath, newPath, now, m);
    var n := At(Rename(t, oldPath, newPath, now).tree, p + m.path[|o|..]).value;
    OverlongIsUnnamed(n.path);
  }

  lemma RenameNeedsPaths(t: Tree, oldPath: Path, newPath: Path, now: Int64)
    requires Rename(t, oldPath, newPath, now).code == OK
    ensures Normalized(oldPath).Some? && Normalized(newPath).Some?
  {
    hide Normalized;
  }

  /** The renames that keep every path short: those that change nothing, and
      those whose subtree fits. */
  ghost predicate CallKeepsShort(t: Tree, c: Call)
  {
    c.DoRename? && Rename(t, c.path, c.dest, c.now).code == OK ==>
      var o, p := Normalized(c.path).value, Normalized(c.dest).value;
      o == p || MoveFits(t, o, p)
  }

  lemma CallStaysShortIff(t: Tree, c: Call, k: Maker, u: Tree)
    requires WellFormed(t) && Short(t) && CallMakes(t, c, k, u)
    ensures Short(u) <==> CallKeepsShort(t, c)
  {
    hide WellFormed, Short, MoveFits, Normalized;
    var over: bool :| Effect(t, c, k, over).tree == u;
    if !c.DoRename? {
      CallStaysShort(t, c, k, over);
    } else if Rename(t, c.path, c.dest, c.now).code == OK {
      if Normalized(c.path).value != Normalized(c.dest).value {
        RenameStaysShort(t, c.path, c.dest, c.now);
      }
    } else {
      RenameKeeps(t, c.path, c.dest, c.now);
    }
  }

  /** Over any run of calls every tree is short exactly when each rename is
      given room. */
  lemma RunStaysShort(calls: seq<Call>, k: Maker, trail: seq<Tree>)
    requires Trail(calls, k, trail) && Short(trail[0])
    ensures (forall i :: 0 <= i <= |calls| ==> Short(trail[i]))
            <==> forall i :: 0 <= i < |calls| ==> CallKeepsShort(trail[i], calls[i])
  {
    hide WellFormed, Short, CallMakes, CallKeepsShort;
    if forall i :: 0 <= i < |calls| ==> CallKeepsShort(trail[i], calls[i]) {
      for i := 0 to |calls|
        invariant forall j :: 0 <= j <= i ==> Short(trail[j])
      {
        CallStaysShortIff(trail[i], calls[i], k, trail[i + 1]);
      }
    }
    if forall i :: 0 <= i <= |calls| ==> Short(trail[i]) {
      forall i | 0 <= i < |calls|
        ensures CallKeepsShort(trail[i], calls[i])
      {
        CallStaysShortIff(trail[i], calls[i], k, trail[i + 1]);
      }
    }
  }

  // ------------------------------------------------------------------
  // A rename that makes a path no call accepts
  // ------------------------------------------------------------------

  function Letters(c: byte, n: nat): (s: seq<byte>)
    ensures |s| == n && forall i :: 0 <= i < n ==> s[i] == c
  {
    seq(n, _ => c)
  }

  lemma LettersAreComponent(c: byte, n: nat)
    requires c != SLASH && c != DOT && n > 0
    ensures Component(Letters(c, n))
  {
    var s := Letters(c, n);
    assert s[0] == c;
  }

  lemma TopIsNormal(name: seq<byte>)
    requires Component(name) && SLASH !in name
    ensures Normal(Child([], name)) && Stem(Child([], name)) == []
  {
    NormalChild([], name);
    ChildParts([], name);
  }

  /** A directory at the top and one file in it make a well-formed tree. */
  lemma FileInDir(d: Node, m: Node, name: seq<byte>)
    requires d.dir && d.data == [] && Normal(d.path) && Stem(d.path) == [] && AllowedPath(d.path)
    requires !m.dir && m.path == Child(d.path, name) && Component(name) && AllowedPath(m.path)
    ensures WellFormed({d, m}) && Under(d.path, m.path)
  {
    NormalChild(d.path, name);
    ChildParts(d.path, name);
    hide Normal, Component, AllowedPath;
    assert d in {d, m};
    assert DirAt({d, m}, d.path);
  }

  lemma RenameToFreeTop(t: Tree, o: Path, p: Path, n: Node, now: Int64)
    requires WellFormed(t) && n in t && n.path == o && (forall m :: m in t ==> m.path != p)
    requires Normal(o) && Normal(p) && |o| < PATH_MAX && |p| < PATH_MAX && AllowedPath(p) && Stem(p) == []
    requires o != p && !Under(o, p)
    ensures Rename(t, o, p, now).code == OK && Normalized(o) == Some(o) && Normalized(p) == Some(p)
  {
    hide Normal, Normalized, AllowedPath, WellFormed, Under, MovedTree, Occupied;
    NormalIsFixed(o);
    NormalIsFixed(p);
    NormalNotRoot(o);
    NormalNotRoot(p);
    WellFormedAt(t, n);
  }

  function OldDir(): Node { Node(Child([], Letters(0x61, 1)), true, 0, 0, [], 0, 0) }

  function NewPath(): Path { Child([], Letters(0x62, 4)) }

  function DeepFile(): Node { Node(Child(OldDir().path, Letters(0x78, 4090)), false, 0, 0, [], 0, 0) }

  lemma DeepParts()
    ensures var o := OldDir().path; var p := NewPath(); var m := DeepFile().path;
            && Normal(o) && Normal(p) && Stem(o) == Stem(p) == [] && AllowedPath(o) && AllowedPath(p) && AllowedPath(m)
            && |o| == 2 && |p| == 5 && |m| == 4093 && o != p && m != p && !Under(o, p)
  {
    var a, b, x := Letters(0x61, 1), Letters(0x62, 4), Letters(0x78, 4090);
    LettersAreComponent(0x61, 1);
    LettersAreComponent(0x62, 4);
    TopIsNormal(a);
    TopIsNormal(b);
    hide Normal, Component, Letters;
    assert Allowed(SLASH) && Allowed(0x61) && Allowed(0x62) && Allowed(0x78);
    hide Allowed;
    assert a[0] == 0x61 && b[0] == 0x62;
    assert NewPath()[1] == 0x62 && OldDir().path[1] == 0x61;
  }

  lemma DeepTreeIsWellFormed()
    ensures var t := {OldDir(), DeepFile()};
            WellFormed(t) && Short(t) && Rename(t, OldDir().path, NewPath(), 0).code == OK
            && Normalized(OldDir().path) == Some(OldDir().path) && Normalized(NewPath()) == Some(NewPath())
            && Under(OldDir().path, DeepFile().path)
  {
    DeepParts();
    LettersAreComponent(0x78, 4090);
    hide Normal, Normalized, AllowedPath, WellFormed, Under, MovedTree, Rename, Letters, Short;
    PairRenames(OldDir(), DeepFile(), Letters(0x78, 4090), NewPath());
  }

  lemma PairIsShort(d: Node, m: Node)
    requires |d.path| < PATH_MAX && |m.path| < PATH_MAX
    ensures Short({d, m})
  {
  }

  lemma PairPaths(d: Node, m: Node, p: Path)
    requires d.path != p && m.path != p
    ensures d in {d, m} && forall x :: x in {d, m} ==> x.path != p
  {
  }

  lemma PairRenames(d: Node, m: Node, name: seq<byte>, p: Path)
    requires d.dir && d.data == [] && Normal(d.path) && Stem(d.path) == [] && AllowedPath(d.path)
    requires !m.dir && m.path == Child(d.path, name) && Component(name) && AllowedPath(m.path)
    requires Normal(p) && Stem(p) == [] && AllowedPath(p) && |p| < PATH_MAX && |m.path| < PATH_MAX && |d.path| < PATH_MAX
    requires d.path != p && m.path != p && !Under(d.path, p)
    ensures WellFormed({d, m}) && Short({d, m}) && Rename({d, m}, d.path, p, 0).code == OK
    ensures Normalized(d.path) == Some(d.path) && Normalized(p) == Some(p) && Under(d.path, m.path)
  {
    hide *;
    FileInDir(d, m, name);
    PairIsShort(d, m);
    UnderIsLonger(d.path, m.path);
    PairPaths(d, m, p);
    RenameToFreeTop({d, m}, d.path, p, d, 0);
  }

  /** Renaming /a to /bbbb takes the file below it from 4093 bytes to 4096: the
      rename succeeds, and no call can name the file any more. */
  lemma RenameMakesOverlong()
    ensures var t := {OldDir(), DeepFile()}; var r := Rename(t, OldDir().path, NewPath(), 0);
            && WellFormed(t) && Short(t) && r.code == OK && WellFormed(r.tree) && !Short(r.tree)
            && exists n :: n in r.tree && !n.dir && n.data == DeepFile().data && Unnamed(n.path)
  {
    var d, m, p := OldDir(), DeepFile(), NewPath();
    DeepTreeIsWellFormed();
    DeepParts();
    DeepDoesNotFit();
    hide *;
    RenameKeeps({d, m}, d.path, p, 0);
    RenameHides({d, m}, d.path, p, 0, m);
    RenameStaysShort({d, m}, d.path, p, 0);
  }

  lemma DeepDoesNotFit()
    requires Under(OldDir().path, DeepFile().path)
    ensures !MoveFits({OldDir(), DeepFile()}, OldDir().path, NewPath()) && !DeepFile().dir
    ensures |NewPath()| + |DeepFile().path| - |OldDir().path| >= PATH_MAX
  {
    hide Under, Letters;
  }
}
