/** What each filesystem call makes of the tree, as a set of nodes (vfs.c). */
module VfsTree {
  import opened Bytes
  import opened Entries
  import opened VfsPath

  /** struct vfs_node; its size is always the length of its contents. */
  datatype Node = Node(path: Path, dir: bool, mode: nat, owner: Int32, data: seq<byte>, ctime: Int64, mtime: Int64)

  type Tree = set<Node>

  datatype Code = OK | ENOTFOUND | EEXIST | EPERM | EQUOTA | ENOTDIR | EISDIR | ENOTEMPTY | EBADPATH

  /** The modes new nodes get after the umask, and who makes them. */
  datatype Maker = Maker(fileMode: nat, dirMode: nat, uid: Int32)

  ghost predicate DistinctPaths(t: Tree)
  {
    forall a, b :: a in t && b in t && a.path == b.path ==> a == b
  }

  ghost predicate DirAt(t: Tree, p: Path) { exists m :: m in t && m.path == p && m.dir }

  ghost predicate HasParent(t: Tree, p: Path) { Stem(p) == [] || DirAt(t, Stem(p)) }

  /** Distinct normalized paths of allowed characters, each under a directory
      node or at the top. */
  ghost predicate WellFormed(t: Tree)
  {
    && DistinctPaths(t)
    && forall n :: n in t ==> Normal(n.path) && AllowedPath(n.path) && (n.dir ==> n.data == []) && HasParent(t, n.path)
  }

  /** Every path fits the code's path buffers. */
  ghost predicate Short(t: Tree) { forall n :: n in t ==> |n.path| < PATH_MAX }

  /** find_node */
  ghost function At(t: Tree, p: Path): (r: Option<Node>)
    ensures r.Some? ==> r.value in t && r.value.path == p
    ensures r.None? ==> forall n :: n in t ==> n.path != p
  {
    if exists n :: n in t && n.path == p then
      var n :| n in t && n.path == p;
      Some(n)
    else None
  }

  /** count_children on a path that is not the root: all descendants count. */
  ghost predicate Occupied(t: Tree, p: Path) { exists m :: m in t && Under(p, m.path) }

  lemma AtIs(t: Tree, n: Node)
    requires DistinctPaths(t) && n in t
    ensures At(t, n.path) == Some(n)
  {
  }

  /** Nothing lies below a path that is not a directory of the tree. */
  lemma {:induction false} NothingUnder(t: Tree, p: Path, m: Node)
    requires WellFormed(t) && p != [] && !DirAt(t, p) && m in t
    ensures !Under(p, m.path)
    decreases |m.path|
  {
    hide Normal, Component, Under;
    NormalHasSlash(m.path);
    UnderStem(p, m.path);
    if Stem(m.path) != [] {
      var k :| k in t && k.path == Stem(m.path) && k.dir;
      NothingUnder(t, p, k);
    } else {
      NothingAboveTop(p);
    }
  }

  lemma NormalHasSlash(p: Path)
    requires Normal(p)
    ensures LastSlash(p) >= 0 && |Stem(p)| < |p|
  {
  }

  lemma NothingAboveTop(p: Path)
    ensures !Under(p, [])
  {
  }

  // ------------------------------------------------------------------
  // Missing parents
  // ------------------------------------------------------------------

  function NewDir(p: Path, k: Maker, now: Int64): Node { Node(p, true, k.dirMode, k.uid, [], now, now) }

  function NewFile(p: Path, data: seq<byte>, k: Maker, now: Int64): Node { Node(p, false, k.fileMode, k.uid, data,
        now, now) }

  /** ensure_parents: nothing is made unless the nearest node above is a
      directory. */
  ghost function EnsureParents(t: Tree, p: Path, k: Maker, now: Int64): Option<Tree>
    decreases |p|
  {
    if Stem(p) == [] then Some(t)
    else
      match At(t, Stem(p))
      case Some(m) => if m.dir then Some(t) else None
      case None =>
        match EnsureParents(t, Stem(p), k, now)
        case None => None
        case Some(u) => Some(u + {NewDir(Stem(p), k, now)})
  }

  lemma AddNode(t: Tree, n: Node)
    requires WellFormed(t) && Normal(n.path) && AllowedPath(n.path) && (n.dir ==> n.data == []) && HasParent(t, n.path)
    requires At(t, n.path).None?
    ensures WellFormed(t + {n})
  {
    hide Normal;
    forall m | m in t + {n}
      ensures HasParent(t + {n}, m.path)
    {
      if Stem(m.path) != [] {
        var d :| d in t && d.path == Stem(m.path) && d.dir;
        assert d in t + {n};
      }
    }
  }

  /** The directories made are exactly the missing ones above the path. */
  lemma {:induction false} ParentsMade(t: Tree, p: Path, k: Maker, now: Int64)
    requires WellFormed(t) && Normal(p) && AllowedPath(p)
    ensures EnsureParents(t, p, k, now).Some? ==>
              var u := EnsureParents(t, p, k, now).value;
              && WellFormed(u) && t <= u && HasParent(u, p)
              && forall n :: n in u ==> n in t || (Under(n.path, p) && At(t, n.path).None? && n == NewDir(n.path, k, now))
    ensures HasParent(t, p) ==> EnsureParents(t, p, k, now) == Some(t)
    decreases |p|
  {
    StemIsAllowed(p);
    hide Component, Under, WellFormed, Normal, AllowedPath;
    NormalHasSlash(p);
    var s := Stem(p);
    if s != [] && At(t, s).None? {
      StemIsNormal(p);
      ParentsMade(t, s, k, now);
      var r := EnsureParents(t, s, k, now);
      if r.Some? {
        var u, n := r.value, NewDir(s, k, now);
        forall m | m in u
          ensures m.path != s
        {
          if m !in t {
            NotUnderItself(s);
          }
        }
        AddNode(u, n);
        UnderStem(s, p);
        assert n in u + {n};
        forall m | m in u + {n}
          ensures m in t || (Under(m.path, p) && At(t, m.path).None? && m == NewDir(m.path, k, now))
        {
          if m != n && m !in t {
            UnderStem(m.path, p);
          }
        }
      }
    } else if s != [] {
      AtDir(t, s);
    }
  }

  lemma AtDir(t: Tree, p: Path)
    requires WellFormed(t)
    ensures DirAt(t, p) <==> At(t, p).Some? && At(t, p).value.dir
  {
    hide Normal;
  }

  lemma StemIsNormal(p: Path)
    requires Normal(p) && Stem(p) != []
    ensures Normal(Stem(p))
  {
  }

  lemma StemIsAllowed(p: Path)
    requires AllowedPath(p)
    ensures AllowedPath(Stem(p))
  {
  }

  lemma NotUnderItself(p: Path)
    ensures !Under(p, p)
  {
  }

  /** The parent test made when parents are not to be created. */
  ghost function ParentCode(t: Tree, p: Path): Code
  {
    if Stem(p) == [] then OK
    else
      match At(t, Stem(p))
      case None => ENOTFOUND
      case Some(m) => if m.dir then OK else ENOTDIR
  }

  /** The tree with room for p, or the error. */
  ghost function MakeRoom(t: Tree, p: Path, create: bool, k: Maker, now: Int64): (Code, Tree)
  {
    if create then
      match EnsureParents(t, p, k, now)
      case None => (ENOTDIR, t)
      case Some(u) => (OK, u)
    else (ParentCode(t, p), t)
  }

  lemma RoomMade(t: Tree, p: Path, create: bool, k: Maker, now: Int64)
    requires WellFormed(t) && Normal(p) && AllowedPath(p)
    ensures var r := MakeRoom(t, p, create, k, now);
            && (r.0 != OK ==> r.1 == t)
            && (r.0 == OK ==> WellFormed(r.1) && t <= r.1 && HasParent(r.1, p) && At(r.1, p) == At(t, p)
                              && forall n :: n in r.1 - t ==> Under(n.path, p) && n == NewDir(n.path, k, now))
            && (HasParent(t, p) ==> r == (OK, t))
  {
    ParentsMade(t, p, k, now);
    hide Normal, WellFormed, EnsureParents;
    AtDir(t, Stem(p));
    var r := MakeRoom(t, p, create, k, now);
    if r.0 == OK {
      SamePlace(t, r.1, p);
    }
  }

  lemma SamePlace(t: Tree, u: Tree, p: Path)
    requires WellFormed(u) && t <= u && forall n :: n in u && n !in t ==> Under(n.path, p)
    ensures At(u, p) == At(t, p)
  {
    hide Normal;
    NotUnderItself(p);
  }

  // ------------------------------------------------------------------
  // The calls
  // ------------------------------------------------------------------

  datatype Outcome = Outcome(code: Code, tree: Tree)

  /** vfs_mkdir */
  ghost function Mkdir(t: Tree, path: Path, create: bool, k: Maker, now: Int64): Outcome
  {
    var q := Normalized(path);
    if q.None? then Outcome(EBADPATH, t) else
    var p := q.value;
    if p == ROOT then Outcome(OK, t)
    else if !AllowedPath(p) then Outcome(EBADPATH, t)
    else if At(t, p).Some? then Outcome(if At(t, p).value.dir && create then OK else EEXIST, t)
    else
      var (c, u) := MakeRoom(t, p, create, k, now);
      if c != OK then Outcome(c, t) else Outcome(OK, u + {NewDir(p, k, now)})
  }

  /** vfs_write, given what the quota test says of it */
  ghost function Write(t: Tree, path: Path, data: seq<byte>, create: bool, k: Maker, now: Int64, overQuota: bool): Outcome
  {
    var q := Normalized(path);
    if q.None? then Outcome(EBADPATH, t) else
    var p := q.value;
    if p == ROOT then Outcome(EISDIR, t)
    else if !AllowedPath(p) then Outcome(EBADPATH, t)
    else
      var e := At(t, p);
      if e.Some? && e.value.dir then Outcome(EISDIR, t)
      else if overQuota then Outcome(EQUOTA, t)
      else
        var (c, u) := MakeRoom(t, p, create, k, now);
        if c != OK then Outcome(c, t)
        else if e.Some? then Outcome(OK, u - {e.value} + {e.value.(data := data, mtime := now)})
        else Outcome(OK, u + {NewFile(p, data, k, now)})
  }

  /** vfs_delete */
  ghost function Delete(t: Tree, path: Path): Outcome
  {
    var q := Normalized(path);
    if q.None? then Outcome(EBADPATH, t)
    else if q.value == ROOT then Outcome(EPERM, t)
    else if At(t, q.value).None? then Outcome(ENOTFOUND, t)
    else
      var n := At(t, q.value).value;
      if n.dir && Occupied(t, q.value) then Outcome(ENOTEMPTY, t) else Outcome(OK, t - {n})
  }

  ghost function Without(t: Tree, p: Path): Tree { set m | m in t && m.path != p && !Under(p, m.path) }

  /** vfs_delete_recursive */
  ghost function DeleteRecursive(t: Tree, path: Path): Outcome
  {
    var q := Normalized(path);
    if q.None? then Outcome(EBADPATH, t)
    else if q.value == ROOT then Outcome(EPERM, t)
    else if At(t, q.value).None? then Outcome(ENOTFOUND, t)
    else Outcome(OK, Without(t, q.value))
  }

  /** A node of the subtree at o moved to p, and any other left alone. */
  function MovedNode(m: Node, o: Path, p: Path, now: Int64): Node
  {
    if m.path == o || Under(o, m.path) then m.(path := p + m.path[|o|..], mtime := now) else m
  }

  ghost function MovedTree(t: Tree, o: Path, p: Path, now: Int64): Tree
  {
    set m | m in t :: MovedNode(m, o, p, now)
  }

  /** vfs_rename.  A destination that may be replaced is removed before its
      parent is looked at, as the code does. */
  ghost function Rename(t: Tree, oldPath: Path, newPath: Path, now: Int64): Outcome
  {
    var a := Normalized(oldPath);
    if a.None? then Outcome(EBADPATH, t) else
    var b := Normalized(newPath);
    if b.None? then Outcome(EBADPATH, t) else
    var o, p := a.value, b.value;
    if o == ROOT || p == ROOT then Outcome(EPERM, t)
    else if !AllowedPath(p) then Outcome(EBADPATH, t)
    else if o == p then Outcome(OK, t)
    else if Under(o, p) then Outcome(EBADPATH, t)
    else if At(t, o).None? then Outcome(ENOTFOUND, t)
    else
      var d := At(t, p);
      if d.Some? && d.value.dir && Occupied(t, p) then Outcome(ENOTEMPTY, t)
      else
        var u := if d.Some? then t - {d.value} else t;
        if ParentCode(u, p) != OK then Outcome(ParentCode(u, p), u)
        else Outcome(OK, MovedTree(u, o, p, now))
  }

  /** vfs_copy */
  ghost function Copy(t: Tree, srcPath: Path, dstPath: Path, create: bool, k: Maker, now: Int64, overQuota: bool): Outcome
  {
    var q := Normalized(srcPath);
    if q.None? then Outcome(EBADPATH, t)
    else if At(t, q.value).None? then Outcome(ENOTFOUND, t)
    else if At(t, q.value).value.dir then Outcome(EISDIR, t)
    else Write(t, dstPath, At(t, q.value).value.data, create, k, now, overQuota)
  }

  /** vfs_chmod */
  ghost function Chmod(t: Tree, path: Path, mode: nat, now: Int64): Outcome
  {
    var q := Normalized(path);
    if q.None? then Outcome(EBADPATH, t)
    else if At(t, q.value).None? then Outcome(ENOTFOUND, t)
    else
      var n := At(t, q.value).value;
      Outcome(OK, t - {n} + {n.(mode := mode % 0x200, mtime := now)})
  }

  // ------------------------------------------------------------------
  // Every call keeps the tree well formed
  // ------------------------------------------------------------------

  lemma NormalizedParts(path: Path)
    requires Normalized(path).Some? && Normalized(path).value != ROOT
    ensures Normal(Normalized(path).value) && Normalized(path).value != []
  {
    NormalizedIsNormal(path);
    NormalNotRoot(Normalized(path).value);
  }

  /** A failed call changes nothing; a directory made is where it was asked for,
      and nothing else appears but the missing directories above it. */
  lemma MkdirKeeps(t: Tree, path: Path, create: bool, k: Maker, now: Int64)
    requires WellFormed(t)
    ensures var r := Mkdir(t, path, create, k, now);
            && WellFormed(r.tree) && t <= r.tree
            && (r.code != OK ==> r.tree == t)
            && (r.code == OK ==> Normalized(path).value == ROOT || DirAt(r.tree, Normalized(path).value))
            && forall n :: n in r.tree - t ==>
                 n == NewDir(n.path, k, now)
                 && (n.path == Normalized(path).value || Under(n.path, Normalized(path).value))
  {
    hide Normal, WellFormed, MakeRoom, AllowedPath, Normalized, Under;
    var r := Mkdir(t, path, create, k, now);
    if Normalized(path).Some? && Normalized(path).value != ROOT {
      var p := Normalized(path).value;
      NormalizedParts(path);
      AtDir(t, p);
      if AllowedPath(p) {
        RoomMade(t, p, create, k, now);
      }
      if r.code == OK && At(t, p).None? {
        AddNode(MakeRoom(t, p, create, k, now).1, NewDir(p, k, now));
        assert NewDir(p, k, now) in r.tree;
      }
    }
  }

  /** Putting a node of the same kind in the place of another. */
  lemma ReplaceNode(t: Tree, n: Node, m: Node)
    requires WellFormed(t) && n in t && m.path == n.path && m.dir == n.dir && (m.dir ==> m.data == [])
    ensures WellFormed(t - {n} + {m})
  {
    hide Normal;
    var u := t - {n} + {m};
    forall x | x in u
      ensures HasParent(u, x.path)
    {
      var y := if x == m then n else x;
      assert HasParent(t, y.path);
      if Stem(x.path) != [] {
        var d :| d in t && d.path == Stem(x.path) && d.dir;
        assert (if d == n then m else d) in u;
      }
    }
  }

  /** A successful write leaves exactly the given bytes at the path; what else
      appears are the missing directories above it. */
  lemma WriteKeeps(t: Tree, path: Path, data: seq<byte>, create: bool, k: Maker, now: Int64, over: bool)
    requires WellFormed(t)
    ensures var r := Write(t, path, data, create, k, now, over);
            && WellFormed(r.tree)
            && (r.code != OK ==> r.tree == t)
            && (r.code == OK ==>
                  var p := Normalized(path).value;
                  && At(r.tree, p).Some? && !At(r.tree, p).value.dir && At(r.tree, p).value.data == data
                  && (forall n :: n in t && n.path != p ==> n in r.tree)
                  && (forall n :: n in r.tree && n !in t ==> n.path == p || (Under(n.path, p) && n == NewDir(n.path, k, now))))
  {
    hide Normal, WellFormed, MakeRoom, AllowedPath, Normalized, Under;
    var r := Write(t, path, data, create, k, now, over);
    if Normalized(path).Some? && Normalized(path).value != ROOT {
      var p := Normalized(path).value;
      NormalizedParts(path);
      if r.code == OK {
        RoomMade(t, p, create, k, now);
        var u := MakeRoom(t, p, create, k, now).1;
        var e := At(t, p);
        var n := if e.Some? then e.value.(data := data, mtime := now) else NewFile(p, data, k, now);
        if e.Some? {
          ReplaceNode(u, e.value, n);
        } else {
          AddNode(u, n);
        }
        assert n in r.tree;
        WellFormedAt(r.tree, n);
      }
    }
  }

  lemma WellFormedAt(t: Tree, n: Node)
    requires WellFormed(t) && n in t
    ensures At(t, n.path) == Some(n)
  {
    hide Normal;
  }

  /** Removing a node with nothing below it. */
  lemma RemoveLeaf(t: Tree, n: Node)
    requires WellFormed(t) && n in t && !Occupied(t, n.path)
    ensures WellFormed(t - {n})
  {
    hide Normal, Under;
    forall x | x in t - {n}
      ensures HasParent(t - {n}, x.path)
    {
      if Stem(x.path) != [] {
        var d :| d in t && d.path == Stem(x.path) && d.dir;
        NormalHasSlash(x.path);
        UnderStem(n.path, x.path);
      }
    }
  }

  lemma FileIsLeaf(t: Tree, n: Node)
    requires WellFormed(t) && n in t && !n.dir
    ensures !Occupied(t, n.path)
  {
    hide Normal, Under;
    NormalNotRoot(n.path);
    forall m | m in t
      ensures !Under(n.path, m.path)
    {
      NothingUnder(t, n.path, m);
    }
  }

  lemma DeleteKeeps(t: Tree, path: Path)
    requires WellFormed(t)
    ensures WellFormed(Delete(t, path).tree)
  {
    hide Normal, WellFormed, Normalized, Occupied;
    var r := Delete(t, path);
    if r.code == OK {
      var n := At(t, Normalized(path).value).value;
      if !n.dir {
        FileIsLeaf(t, n);
      }
      RemoveLeaf(t, n);
    }
  }

  /** Removing a whole subtree. */
  lemma WithoutKeeps(t: Tree, p: Path)
    requires WellFormed(t)
    ensures WellFormed(Without(t, p))
  {
    hide Normal, Under;
    var u := Without(t, p);
    forall x | x in u
      ensures HasParent(u, x.path)
    {
      if Stem(x.path) != [] {
        var d :| d in t && d.path == Stem(x.path) && d.dir;
        NormalHasSlash(x.path);
        UnderStem(p, x.path);
        assert d in u;
      }
    }
  }

  lemma ChmodKeeps(t: Tree, path: Path, mode: nat, now: Int64)
    requires WellFormed(t)
    ensures WellFormed(Chmod(t, path, mode, now).tree)
  {
    hide Normal, Normalized, WellFormed;
    var r := Chmod(t, path, mode, now);
    if r.code == OK {
      var n := At(t, Normalized(path).value).value;
      DirsAreEmpty(t, n);
      ReplaceNode(t, n, n.(mode := mode % 0x200, mtime := now));
    }
  }

  lemma DirsAreEmpty(t: Tree, n: Node)
    requires WellFormed(t) && n in t
    ensures n.dir ==> n.data == []
  {
    hide Normal;
  }

  // ------------------------------------------------------------------
  // Moving a subtree
  // ------------------------------------------------------------------

  lemma MovedSuffix(o: Path, p: Path, s: Path, b: seq<byte>)
    requires |o| <= |s|
    ensures p + Child(s, b)[|o|..] == Child(p + s[|o|..], b)
  {
  }

  lemma UnderLonger(o: Path, s: Path)
    requires s == o || Under(o, s)
    ensures |s| >= |o| && (s == o ==> s[|o|..] == [])
  {
  }

  /** The path of a descendant, moved with its ancestor from o to p. */
  lemma {:induction false} MovedPath(o: Path, p: Path, m: Path)
    requires Normal(o) && Normal(p) && Normal(m) && Under(o, m)
    ensures |Stem(m)| >= |o| && (Stem(m) == o || Under(o, Stem(m)))
    ensures var q := p + m[|o|..]; Normal(q) && Under(p, q) && Stem(q) == p + Stem(m)[|o|..]
    decreases |m|
  {
    NormalHasSlash(m);
    PathParts(m);
    UnderStem(o, m);
    UnderAppended(p, m[|o|..], o, m);
    NormalBase(m);
    NormalNotRoot(p);
    hide Normal, Component, Under;
    var s, b := Stem(m), Base(m);
    UnderLonger(o, s);
    MovedSuffix(o, p, s, b);
    var d := p + s[|o|..];
    ChildParts(d, b);
    if s == o {
      assert d == p;
    } else {
      NotEmptyAbove(o, s);
      StemIsNormal(m);
      MovedPath(o, p, s);
    }
    NormalChild(d, b);
  }

  lemma NormalBase(m: Path)
    requires Normal(m)
    ensures Component(Base(m))
  {
  }

  lemma NotEmptyAbove(o: Path, s: Path)
    requires Under(o, s)
    ensures s != []
  {
  }

  lemma UnderAppended(p: Path, suffix: Path, o: Path, m: Path)
    requires Under(o, m) && suffix == m[|o|..]
    ensures Under(p, p + suffix)
  {
    assert suffix[0] == SLASH;
    assert (p + suffix)[..|p|] == p;
  }

  /** Nodes that move stay apart from each other and from those that do not. */
  lemma MovedApart(u: Tree, o: Path, p: Path, now: Int64, a: Node, b: Node)
    requires WellFormed(u) && Normal(o) && Normal(p)
    requires forall m :: m in u ==> m.path != p && !Under(p, m.path)
    requires a in u && b in u && MovedNode(a, o, p, now).path == MovedNode(b, o, p, now).path
    ensures a == b
  {
    hide Normal;
    var x, y := MovedNode(a, o, p, now).path, MovedNode(b, o, p, now).path;
    if a.path == o || Under(o, a.path) {
      assert a.path == o + a.path[|o|..];
      assert x == p + a.path[|o|..];
      MovedIsAtOrUnder(o, p, a.path);
      if b.path == o || Under(o, b.path) {
        assert b.path == o + b.path[|o|..];
        assert a.path[|o|..] == x[|p|..] == y[|p|..] == b.path[|o|..];
      }
    } else if b.path == o || Under(o, b.path) {
      MovedIsAtOrUnder(o, p, b.path);
    }
  }

  lemma MovedIsAtOrUnder(o: Path, p: Path, m: Path)
    requires m == o || Under(o, m)
    ensures p + m[|o|..] == p || Under(p, p + m[|o|..])
  {
    if m != o {
      UnderAppended(p, m[|o|..], o, m);
    } else {
      assert m[|o|..] == [];
    }
  }

  /** A tree in which a subtree has moved to a free place is well formed. */
  lemma MovedKeeps(u: Tree, o: Path, p: Path, now: Int64)
    requires WellFormed(u) && Normal(o) && Normal(p) && AllowedPath(p) && DirectlyFree(u, o, p)
    ensures WellFormed(MovedTree(u, o, p, now))
  {
    hide Normal, Component, AllowedPath, Under, DirectlyFree;
    FreeMeans(u, o, p);
    var v := MovedTree(u, o, p, now);
    forall a, b | a in v && b in v && a.path == b.path
      ensures a == b
    {
      var x :| x in u && MovedNode(x, o, p, now) == a;
      var y :| y in u && MovedNode(y, o, p, now) == b;
      MovedApart(u, o, p, now, x, y);
    }
    forall n | n in v
      ensures Normal(n.path) && AllowedPath(n.path) && (n.dir ==> n.data == []) && HasParent(v, n.path)
    {
      var m :| m in u && MovedNode(m, o, p, now) == n;
      MovedHasParent(u, o, p, now, m);
      MovedIsAllowed(o, p, now, m);
    }
  }

  /** p is free, its parent is a directory that does not move, and p is not
      inside what moves. */
  ghost predicate DirectlyFree(u: Tree, o: Path, p: Path)
  {
    && (forall m :: m in u ==> m.path != p && !Under(p, m.path))
    && HasParent(u, p) && o != p && !Under(o, p)
  }

  lemma FreeMeans(u: Tree, o: Path, p: Path)
    requires DirectlyFree(u, o, p)
    ensures forall m :: m in u ==> m.path != p && !Under(p, m.path)
  {
  }

  lemma MovedIsAllowed(o: Path, p: Path, now: Int64, m: Node)
    requires AllowedPath(p) && AllowedPath(m.path)
    ensures AllowedPath(MovedNode(m, o, p, now).path)
  {
  }

  lemma MovedHasParent(u: Tree, o: Path, p: Path, now: Int64, m: Node)
    requires WellFormed(u) && Normal(o) && Normal(p) && DirectlyFree(u, o, p) && m in u
    ensures var n := MovedNode(m, o, p, now);
            Normal(n.path) && (n.dir ==> n.data == []) && HasParent(MovedTree(u, o, p, now), n.path)
  {
    hide Normal, Component;
    var v, n := MovedTree(u, o, p, now), MovedNode(m, o, p, now);
    if m.path == o {
      assert m.path[|o|..] == [];
      assert n.path == p;
      if Stem(p) != [] {
        NormalHasSlash(p);
        UnderStem(o, p);
        var d :| d in u && d.path == Stem(p) && d.dir;
        assert MovedNode(d, o, p, now) == d;
      }
    } else if Under(o, m.path) {
      MovedPath(o, p, m.path);
      NormalNotRoot(o);
      assert Stem(m.path) != [];
      var d :| d in u && d.path == Stem(m.path) && d.dir;
      assert MovedNode(d, o, p, now) in v;
    } else if Stem(m.path) != [] {
      var d :| d in u && d.path == Stem(m.path) && d.dir;
      NormalHasSlash(m.path);
      UnderStem(o, m.path);
      assert MovedNode(d, o, p, now) == d;
    }
  }

  lemma DestinationIsFree(t: Tree, o: Path, p: Path)
    requires WellFormed(t) && Normal(p) && o != p && !Under(o, p)
    requires At(t, p).Some? && At(t, p).value.dir ==> !Occupied(t, p)
    ensures var u := if At(t, p).Some? then t - {At(t, p).value} else t;
            && WellFormed(u) && (forall m :: m in u ==> m.path != p && !Under(p, m.path))
            && (At(t, p).Some? ==> ParentCode(u, p) == OK)
            && (ParentCode(u, p) == OK ==> HasParent(u, p))
  {
    hide Normal;
    NormalNotRoot(p);
    var u := if At(t, p).Some? then t - {At(t, p).value} else t;
    if At(t, p).Some? {
      if !At(t, p).value.dir {
        FileIsLeaf(t, At(t, p).value);
      }
      RemoveLeaf(t, At(t, p).value);
    } else {
      forall m | m in t
        ensures !Under(p, m.path)
      {
        NothingUnder(t, p, m);
      }
    }
    AtDir(u, Stem(p));
    if At(t, p).Some? && Stem(p) != [] {
      NormalHasSlash(p);
      var d :| d in t && d.path == Stem(p) && d.dir;
      assert d in u;
      AtIs(u, d);
    }
  }

  /** A failed rename changes nothing, although the destination is removed before
      its parent is looked at: what can be removed has a parent. */
  lemma RenameKeeps(t: Tree, oldPath: Path, newPath: Path, now: Int64)
    requires WellFormed(t)
    ensures var r := Rename(t, oldPath, newPath, now);
            WellFormed(r.tree) && (r.code != OK ==> r.tree == t)
  {
    hide Normal, WellFormed, Normalized, AllowedPath, Under, Occupied, MovedTree;
    var a, b := Normalized(oldPath), Normalized(newPath);
    if a.Some? && b.Some? && a.value != ROOT && b.value != ROOT {
      NormalizedParts(oldPath);
      NormalizedParts(newPath);
      var o, p := a.value, b.value;
      var r := Rename(t, oldPath, newPath, now);
      if o != p && !Under(o, p) && AllowedPath(p) && At(t, o).Some? && r.code != ENOTEMPTY {
        DestinationIsFree(t, o, p);
        var u := if At(t, p).Some? then t - {At(t, p).value} else t;
        if ParentCode(u, p) == OK {
          MovedKeeps(u, o, p, now);
        }
      }
    }
  }

  lemma VacatedPath(u: Tree, o: Path, p: Path, now: Int64, q: Path)
    requires (q == o || Under(o, q)) && q != p && !Under(p, q)
    ensures At(MovedTree(u, o, p, now), q).None?
  {
    forall n | n in MovedTree(u, o, p, now)
      ensures n.path != q
    {
      var x :| x in u && MovedNode(x, o, p, now) == n;
      hide Under;
      if x.path == o || Under(o, x.path) {
        MovedIsAtOrUnder(o, p, x.path);
      }
    }
  }

  lemma MovedFinds(u: Tree, o: Path, p: Path, now: Int64, m: Node)
    requires WellFormed(u) && Normal(o) && Normal(p) && AllowedPath(p) && DirectlyFree(u, o, p) && m in u
    ensures var v := MovedTree(u, o, p, now);
            if m.path == o || Under(o, m.path) then
              && At(v, p + m.path[|o|..]) == Some(m.(path := p + m.path[|o|..], mtime := now))
              && At(v, m.path).None?
            else At(v, m.path) == Some(m)
  {
    MovedKeeps(u, o, p, now);
    hide Normal, WellFormed, Under;
    var v := MovedTree(u, o, p, now);
    assert MovedNode(m, o, p, now) in v;
    WellFormedAt(v, MovedNode(m, o, p, now));
    if m.path == o || Under(o, m.path) {
      VacatedPath(u, o, p, now, m.path);
    }
  }

  ghost function Vacated(t: Tree, p: Path): Tree
  {
    if At(t, p).Some? then t - {At(t, p).value} else t
  }

  lemma RenamedTree(t: Tree, oldPath: Path, newPath: Path, now: Int64)
    requires WellFormed(t) && Rename(t, oldPath, newPath, now).code == OK
    requires Normalized(oldPath).value != Normalized(newPath).value
    ensures var o := Normalized(oldPath).value; var p := Normalized(newPath).value;
            && Normal(o) && Normal(p) && AllowedPath(p) && o != p && !Under(o, p)
            && WellFormed(Vacated(t, p)) && DirectlyFree(Vacated(t, p), o, p)
            && Rename(t, oldPath, newPath, now).tree == MovedTree(Vacated(t, p), o, p, now)
  {
    hide Normal, Normalized, AllowedPath, WellFormed, Occupied, Under, MovedTree;
    NormalizedParts(oldPath);
    NormalizedParts(newPath);
    DestinationIsFree(t, Normalized(oldPath).value, Normalized(newPath).value);
  }

  /** A rename that succeeds moves exactly the source subtree, name for name, and
      leaves everything else but a replaced destination where it was. */
  lemma RenameMoves(t: Tree, oldPath: Path, newPath: Path, now: Int64, m: Node)
    requires WellFormed(t) && m in t && Rename(t, oldPath, newPath, now).code == OK
    requires Normalized(oldPath).value != Normalized(newPath).value
    ensures var o := Normalized(oldPath).value; var p := Normalized(newPath).value;
            var v := Rename(t, oldPath, newPath, now).tree;
            if m.path == o || Under(o, m.path) then
              && At(v, p + m.path[|o|..]) == Some(m.(path := p + m.path[|o|..], mtime := now))
              && At(v, m.path).None?
            else m.path != p ==> At(v, m.path) == Some(m)
  {
    RenamedTree(t, oldPath, newPath, now);
    hide Normal, Normalized, WellFormed, Under, MovedTree, Rename, DirectlyFree;
    var o, p := Normalized(oldPath).value, Normalized(newPath).value;
    if m.path == o || Under(o, m.path) {
      NotDestination(t, o, p, m);
    }
    if m in Vacated(t, p) {
      MovedFinds(Vacated(t, p), o, p, now, m);
    }
  }

  lemma NotDestination(t: Tree, o: Path, p: Path, m: Node)
    requires m in t && (m.path == o || Under(o, m.path)) && o != p && !Under(o, p)
    ensures m in (if At(t, p).Some? then t - {At(t, p).value} else t)
  {
  }

  /** Recursive deletion removes exactly the node and its descendants. */
  lemma DeleteRecursiveRemoves(t: Tree, path: Path, m: Node)
    requires WellFormed(t) && m in t && DeleteRecursive(t, path).code == OK
    ensures var p := Normalized(path).value; var v := DeleteRecursive(t, path).tree;
            WellFormed(v) && At(v, m.path) == if m.path == p || Under(p, m.path) then None else Some(m)
  {
    hide Normal, Normalized, Under, WellFormed;
    var p := Normalized(path).value;
    WithoutKeeps(t, p);
    if !(m.path == p || Under(p, m.path)) {
      WellFormedAt(Without(t, p), m);
    }
  }
}
