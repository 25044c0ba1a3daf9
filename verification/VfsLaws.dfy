/** When each filesystem call succeeds, what it answers when it does not, and
    which nodes it changes (vfs.c). */
module VfsLaws {
  import opened Bytes
  import opened Entries
  import opened VfsPath
  import opened VfsTree
  import opened Vfs

  // ------------------------------------------------------------------
  // Room for a path
  // ------------------------------------------------------------------

  /** A path a node can be made at. */
  ghost predicate Usable(path: Path)
  {
    Normalized(path).Some? && Normalized(path).value != ROOT && AllowedPath(Normalized(path).value)
  }

  /** A node lies at p. */
  ghost predicate Exists(t: Tree, p: Path) { exists n :: n in t && n.path == p }

  ghost predicate FileAt(t: Tree, p: Path) { exists n :: n in t && n.path == p && !n.dir }

  ghost predicate FileAbove(t: Tree, p: Path) { exists n :: n in t && !n.dir && Under(n.path, p) }

  /** Missing parents may be made below any directory, but not below a file;
      when they are not to be made the parent must be there. */
  ghost predicate HasRoom(t: Tree, p: Path, create: bool)
  {
    if create then !FileAbove(t, p) else HasParent(t, p)
  }

  lemma FoundAt(t: Tree, p: Path)
    requires WellFormed(t)
    ensures At(t, p).Some? <==> Exists(t, p)
    ensures At(t, p).Some? && At(t, p).value.dir <==> DirAt(t, p)
    ensures At(t, p).Some? && !At(t, p).value.dir <==> FileAt(t, p)
  {
    hide Normal, AllowedPath;
  }

  lemma NoFileAboveNode(t: Tree, n: Node)
    requires WellFormed(t) && n in t
    ensures !FileAbove(t, n.path)
  {
    hide WellFormed, Under;
    forall f | f in t && !f.dir
      ensures !Under(f.path, n.path)
    {
      FileIsLeaf(t, f);
    }
  }

  lemma FileAboveStem(t: Tree, p: Path)
    requires WellFormed(t) && Normal(p)
    ensures FileAbove(t, p) <==> Stem(p) != [] && (FileAt(t, Stem(p)) || FileAbove(t, Stem(p)))
  {
    NormalHasSlash(p);
    forall n | n in t
      ensures n.path != [] && (Under(n.path, p) <==> Stem(p) == n.path || Under(n.path, Stem(p)))
    {
      NodeIsNormal(t, n);
      NormalNotRoot(n.path);
      UnderStem(n.path, p);
    }
    hide WellFormed, Normal, Under;
    if Stem(p) == [] {
      forall n | n in t
        ensures !Under(n.path, [])
      {
        NothingAboveTop(n.path);
      }
    }
  }

  lemma {:induction false} ParentsMadeIff(t: Tree, p: Path, k: Maker, now: Int64)
    requires WellFormed(t) && Normal(p)
    ensures EnsureParents(t, p, k, now).Some? <==> !FileAbove(t, p)
    decreases |p|
  {
    FileAboveStem(t, p);
    FoundAt(t, Stem(p));
    NormalHasSlash(p);
    if Stem(p) != [] {
      StemIsNormal(p);
      if At(t, Stem(p)).Some? {
        NoFileAboveNode(t, At(t, Stem(p)).value);
      } else {
        ParentsMadeIff(t, Stem(p), k, now);
      }
    }
    hide WellFormed, Normal, FileAbove, FileAt;
  }

  /** Why there is no room for a path. */
  lemma RoomIff(t: Tree, p: Path, create: bool, k: Maker, now: Int64)
    requires WellFormed(t) && Normal(p)
    ensures var c := MakeRoom(t, p, create, k, now).0;
            && (c == OK <==> HasRoom(t, p, create))
            && (c == ENOTFOUND <==> !create && Stem(p) != [] && !Exists(t, Stem(p)))
            && (c == ENOTDIR <==> if create then FileAbove(t, p) else Stem(p) != [] && FileAt(t, Stem(p)))
            && c in {OK, ENOTFOUND, ENOTDIR}
  {
    ParentsMadeIff(t, p, k, now);
    FoundAt(t, Stem(p));
    hide WellFormed, Normal, FileAbove, FileAt, Exists, DirAt;
  }

  // ------------------------------------------------------------------
  // Making files and directories
  // ------------------------------------------------------------------

  /** A write succeeds exactly where a file is, or where nothing is and there is
      room for one, within the quota. */
  lemma WriteIff(t: Tree, path: Path, data: seq<byte>, create: bool, k: Maker, now: Int64, over: bool)
    requires WellFormed(t)
    ensures var c := Write(t, path, data, create, k, now, over).code;
            && (c == EBADPATH <==> !Usable(path) && Normalized(path) != Some(ROOT))
            && (Normalized(path) == Some(ROOT) ==> c == EISDIR)
            && (Usable(path) ==>
                  var p := Normalized(path).value;
                  && (c == EISDIR <==> DirAt(t, p))
                  && (c == EQUOTA <==> !DirAt(t, p) && over)
                  && (!DirAt(t, p) && !over ==>
                        && (c == OK <==> FileAt(t, p) || HasRoom(t, p, create))
                        && (c == ENOTFOUND <==> !create && Stem(p) != [] && !Exists(t, Stem(p)))
                        && (c == ENOTDIR <==> if create then FileAbove(t, p) else Stem(p) != [] && FileAt(t, Stem(p)))))
  {
    hide Normal, WellFormed, MakeRoom, AllowedPath, Normalized, FileAbove, Exists, FileAt, DirAt;
    if Usable(path) {
      var p := Normalized(path).value;
      NormalizedParts(path);
      FoundAt(t, p);
      RoomIff(t, p, create, k, now);
      if At(t, p).Some? {
        NodeHasRoom(t, At(t, p).value, create);
      }
    }
  }

  lemma NodeHasRoom(t: Tree, n: Node, create: bool)
    requires WellFormed(t) && n in t
    ensures HasRoom(t, n.path, create)
  {
    NoFileAboveNode(t, n);
    ExistsUnderParent(t, n);
    hide WellFormed, FileAbove, HasParent;
  }

  /** A successful write leaves its bytes in a file that keeps its mode, owner and
      creation time when it was there, and gets those of a new file when it was
      not. */
  lemma WriteLeaves(t: Tree, path: Path, data: seq<byte>, create: bool, k: Maker, now: Int64, over: bool)
    requires WellFormed(t) && Write(t, path, data, create, k, now, over).code == OK
    ensures var p := Normalized(path).value; var e := At(t, p);
            At(Write(t, path, data, create, k, now, over).tree, p)
            == Some(if e.Some? then Node(p, false, e.value.mode, e.value.owner, data, e.value.ctime, now)
                    else Node(p, false, k.fileMode, k.uid, data, now, now))
  {
    WriteKeeps(t, path, data, create, k, now, over);
    hide Normal, WellFormed, AllowedPath, Normalized, MakeRoom, At;
    var p, v := Normalized(path).value, Write(t, path, data, create, k, now, over).tree;
    var e := At(t, p);
    var n := if e.Some? then e.value.(data := data, mtime := now) else NewFile(p, data, k, now);
    assert n in v;
    WellFormedAt(v, n);
  }

  /** Every other node stays, and what else is new are directories above it. */
  lemma WriteElsewhere(t: Tree, path: Path, data: seq<byte>, create: bool, k: Maker, now: Int64, over: bool, m: Node)
    requires WellFormed(t) && Write(t, path, data, create, k, now, over).code == OK
    requires m.path != Normalized(path).value
    ensures var v := Write(t, path, data, create, k, now, over).tree;
            && (m in t ==> At(v, m.path) == Some(m))
            && (m in v && m !in t ==> Under(m.path, Normalized(path).value) && MadeDir(m, k, now))
  {
    WriteKeeps(t, path, data, create, k, now, over);
    hide Normal, WellFormed, AllowedPath, Normalized, Under, Write, At;
    if m in t {
      WellFormedAt(Write(t, path, data, create, k, now, over).tree, m);
    }
  }

  lemma NoneThere(t: Tree, m: Node)
    requires WellFormed(t)
    ensures m in t ==> At(t, m.path) == Some(m)
  {
    hide Normal;
  }

  /** A directory made just now. */
  predicate MadeDir(m: Node, k: Maker, now: Int64)
  {
    m.dir && m.mode == k.dirMode && m.owner == k.uid && m.data == [] && m.ctime == now && m.mtime == now
  }

  /** A mkdir succeeds exactly at the root, where a directory is that may be
      there, or where nothing is and there is room. */
  lemma MkdirIff(t: Tree, path: Path, create: bool, k: Maker, now: Int64)
    requires WellFormed(t)
    ensures var c := Mkdir(t, path, create, k, now).code;
            && (c == EBADPATH <==> !Usable(path) && Normalized(path) != Some(ROOT))
            && (Normalized(path) == Some(ROOT) ==> c == OK)
            && (Usable(path) ==>
                  var p := Normalized(path).value;
                  if Exists(t, p) then c == if DirAt(t, p) && create then OK else EEXIST
                  else
                    && (c == OK <==> HasRoom(t, p, create))
                    && (c == ENOTFOUND <==> !create && Stem(p) != [] && !Exists(t, Stem(p)))
                    && (c == ENOTDIR <==> if create then FileAbove(t, p) else Stem(p) != [] && FileAt(t, Stem(p))))
  {
    hide Normal, WellFormed, MakeRoom, AllowedPath, Normalized, FileAbove, Exists, FileAt, DirAt;
    if Usable(path) {
      var p := Normalized(path).value;
      NormalizedParts(path);
      FoundAt(t, p);
      RoomIff(t, p, create, k, now);
    }
  }

  /** A successful mkdir keeps every node; the directory it made and those above
      it are new and empty. */
  lemma MkdirLeaves(t: Tree, path: Path, create: bool, k: Maker, now: Int64, m: Node)
    requires WellFormed(t) && Mkdir(t, path, create, k, now).code == OK
    ensures var p := Normalized(path).value; var v := Mkdir(t, path, create, k, now).tree;
            && (m in t ==> At(v, m.path) == Some(m))
            && (p != ROOT ==> DirAt(v, p))
            && (m in v && m !in t ==> (m.path == p || Under(m.path, p)) && At(t, m.path).None? && MadeDir(m, k, now))
  {
    MkdirKeeps(t, path, create, k, now);
    hide Normal, WellFormed, AllowedPath, Normalized, Under, Mkdir;
    var v := Mkdir(t, path, create, k, now).tree;
    if m in t {
      WellFormedAt(v, m);
    }
    if m in v {
      WellFormedAt(v, m);
      if At(t, m.path).Some? {
        WellFormedAt(v, At(t, m.path).value);
      }
    }
  }

  // ------------------------------------------------------------------
  // Deleting
  // ------------------------------------------------------------------

  /** A delete succeeds exactly for a file or a directory with nothing below it. */
  lemma DeleteIff(t: Tree, path: Path)
    requires WellFormed(t)
    ensures var c := Delete(t, path).code; var q := Normalized(path);
            && (c == EBADPATH <==> q.None?)
            && (c == EPERM <==> q == Some(ROOT))
            && (q.Some? && q.value != ROOT ==>
                  && (c == ENOTFOUND <==> !Exists(t, q.value))
                  && (c == ENOTEMPTY <==> exists m :: m in t && Under(q.value, m.path))
                  && (c == OK <==> Exists(t, q.value) && forall m :: m in t ==> !Under(q.value, m.path)))
            && (c != OK ==> Delete(t, path).tree == t)
  {
    hide Normal, WellFormed, Normalized, Under, Exists, DirAt, FileAt;
    var q := Normalized(path);
    if q.Some? && q.value != ROOT {
      NormalizedParts(path);
      FoundAt(t, q.value);
      if !DirAt(t, q.value) {
        forall m | m in t
          ensures !Under(q.value, m.path)
        {
          NothingUnder(t, q.value, m);
        }
      }
    }
  }

  /** A successful delete takes away the node at the path and no other. */
  lemma DeleteRemoves(t: Tree, path: Path, m: Node)
    requires WellFormed(t) && m in t && Delete(t, path).code == OK
    ensures var v := Delete(t, path).tree;
            && WellFormed(v) && v <= t
            && At(v, m.path) == if m.path == Normalized(path).value then None else Some(m)
  {
    DeleteKeeps(t, path);
    hide Normal, WellFormed, Normalized, Occupied, At;
    var v := Delete(t, path).tree;
    if m.path != Normalized(path).value {
      WellFormedAt(v, m);
    } else {
      WellFormedAt(t, m);
      forall n | n in v
        ensures n.path != m.path
      {
        WellFormedAt(t, n);
      }
    }
  }

  lemma DeleteRecursiveIff(t: Tree, path: Path)
    requires WellFormed(t)
    ensures var c := DeleteRecursive(t, path).code; var q := Normalized(path);
            && (c == EBADPATH <==> q.None?)
            && (c == EPERM <==> q == Some(ROOT))
            && (q.Some? && q.value != ROOT ==> c == if Exists(t, q.value) then OK else ENOTFOUND)
            && (c != OK ==> DeleteRecursive(t, path).tree == t)
            && DeleteRecursive(t, path).tree <= t
  {
    hide WellFormed, Normalized, Under;
  }

  // ------------------------------------------------------------------
  // Renaming
  // ------------------------------------------------------------------

  /** A rename succeeds exactly when the source is there, the destination is
      neither below it nor a directory with something in it, and the parent of
      the destination is a directory; to the same place always. */
  lemma RenameIff(t: Tree, oldPath: Path, newPath: Path, now: Int64)
    requires WellFormed(t)
    ensures var c := Rename(t, oldPath, newPath, now).code;
            var a := Normalized(oldPath); var b := Normalized(newPath);
            if a.None? || b.None? then c == EBADPATH
            else if a.value == ROOT || b.value == ROOT then c == EPERM
            else if !AllowedPath(b.value) then c == EBADPATH
            else if a.value == b.value then c == OK && Rename(t, oldPath, newPath, now).tree == t
            else
              var o := a.value; var p := b.value;
              && (c == EBADPATH <==> Under(o, p))
              && (c == ENOTEMPTY <==> !Under(o, p) && Exists(t, o) && Occupied(t, p))
              && (c == ENOTDIR <==> !Under(o, p) && Exists(t, o) && Stem(p) != [] && FileAt(t, Stem(p)))
              && (c == ENOTFOUND <==> !Under(o, p) && (!Exists(t, o) || (Stem(p) != [] && !Exists(t, Stem(p)))))
              && (c == OK <==> !Under(o, p) && Exists(t, o) && !Occupied(t, p) && HasParent(t, p))
  {
    hide Normal, WellFormed, Normalized, AllowedPath, Under, Exists, FileAt, DirAt, MovedTree, Occupied, ParentCode, HasParent;
    var a, b := Normalized(oldPath), Normalized(newPath);
    if a.Some? && b.Some? && a.value != ROOT && b.value != ROOT && AllowedPath(b.value) && a.value != b.value {
      NormalizedParts(oldPath);
      NormalizedParts(newPath);
      if !Under(a.value, b.value) {
        RenameParts(t, a.value, b.value);
        ParentCodeIff(t, b.value);
      }
    }
  }

  /** Nothing but what was there before is in the tree a rename leaves. */
  lemma RenameAddsNothing(t: Tree, oldPath: Path, newPath: Path, now: Int64, n: Node) returns (m: Node)
    requires WellFormed(t) && Rename(t, oldPath, newPath, now).code == OK && n in Rename(t, oldPath, newPath, now).tree
    ensures var o := Normalized(oldPath).value; var p := Normalized(newPath).value;
            && m in t
            && (n == m || ((m.path == o || Under(o, m.path)) && n.path == p + m.path[|o|..] && n.data == m.data))
  {
    hide Normal, WellFormed, Normalized, Under, At;
    if n in t {
      m := n;
    } else {
      RenamedTree(t, oldPath, newPath, now);
      hide Rename, DirectlyFree;
      var o, p := Normalized(oldPath).value, Normalized(newPath).value;
      m :| m in Vacated(t, p) && MovedNode(m, o, p, now) == n;
    }
  }

  /** A node has its parent, which is a directory. */
  lemma ParentIsThere(t: Tree, p: Path)
    requires WellFormed(t) && Exists(t, p)
    ensures HasParent(t, p)
    ensures Stem(p) != [] ==> Exists(t, Stem(p)) && !FileAt(t, Stem(p))
  {
    hide Normal, AllowedPath;
  }

  /** What the parent test answers on a tree. */
  lemma ParentCodeIff(t: Tree, p: Path)
    requires WellFormed(t)
    ensures var c := ParentCode(t, p);
            && (c == OK <==> HasParent(t, p))
            && (c == ENOTDIR <==> Stem(p) != [] && FileAt(t, Stem(p)))
            && (c == ENOTFOUND <==> Stem(p) != [] && !Exists(t, Stem(p)))
            && c in {OK, ENOTDIR, ENOTFOUND}
  {
    FoundAt(t, Stem(p));
    hide WellFormed, Exists, FileAt, DirAt;
  }

  /** What the tests of a rename see: only a directory has something below it,
      and removing an empty destination does not change what its parent is. */
  lemma RenameParts(t: Tree, o: Path, p: Path)
    requires WellFormed(t) && Normal(o) && Normal(p) && o != p && !Under(o, p)
    ensures At(t, o).Some? <==> Exists(t, o)
    ensures Occupied(t, p) ==> DirAt(t, p) && At(t, p).Some? && At(t, p).value.dir && HasParent(t, p)
    ensures Stem(p) != [] && (FileAt(t, Stem(p)) || !Exists(t, Stem(p))) ==> !Occupied(t, p)
    ensures !Occupied(t, p) ==> ParentCode(Vacated(t, p), p) == ParentCode(t, p)
  {
    FoundAt(t, o);
    FoundAt(t, p);
    if Occupied(t, p) {
      OccupiedIsDir(t, p);
      ParentIsThere(t, p);
    } else {
      DestinationIsFree(t, o, p);
      if At(t, p).Some? {
        ParentIsThere(t, p);
        ParentCodeIff(t, p);
      }
    }
    hide WellFormed, Normal, Under, Exists, FileAt;
  }

  lemma OccupiedIsDir(t: Tree, p: Path)
    requires WellFormed(t) && Normal(p) && Occupied(t, p)
    ensures DirAt(t, p) && Exists(t, p)
  {
    var m :| m in t && Under(p, m.path);
    NormalNotRoot(p);
    hide WellFormed, Under, Normal;
    if !DirAt(t, p) {
      NothingUnder(t, p, m);
    }
  }

  // ------------------------------------------------------------------
  // Copying and modes
  // ------------------------------------------------------------------

  /** A copy reads a file and writes it. */
  lemma CopyIff(t: Tree, srcPath: Path, dstPath: Path, create: bool, k: Maker, now: Int64, over: bool)
    requires WellFormed(t)
    ensures var c := Copy(t, srcPath, dstPath, create, k, now, over).code; var q := Normalized(srcPath);
            if q.None? then c == EBADPATH
            else if !Exists(t, q.value) then c == ENOTFOUND
            else if DirAt(t, q.value) then c == EISDIR
            else
              && (c == EBADPATH <==> !Usable(dstPath) && Normalized(dstPath) != Some(ROOT))
              && (Normalized(dstPath) == Some(ROOT) ==> c == EISDIR)
              && (Usable(dstPath) ==>
                    var p := Normalized(dstPath).value;
                    && (c == EISDIR <==> DirAt(t, p))
                    && (c == EQUOTA <==> !DirAt(t, p) && over)
                    && (c == OK <==> !DirAt(t, p) && !over && (FileAt(t, p) || HasRoom(t, p, create))))
  {
    hide Normal, WellFormed, AllowedPath, Normalized, Write, Exists, FileAt, DirAt, HasRoom;
    var q := Normalized(srcPath);
    if q.Some? {
      FoundAt(t, q.value);
      if At(t, q.value).Some? {
        WriteIff(t, dstPath, At(t, q.value).value.data, create, k, now, over);
      }
    }
  }

  /** A successful copy leaves the bytes of the source at the destination, and
      every node elsewhere, the source among them, as it was. */
  lemma CopyLeaves(t: Tree, srcPath: Path, dstPath: Path, create: bool, k: Maker, now: Int64, over: bool, src: Node, m: Node)
    requires WellFormed(t) && Copy(t, srcPath, dstPath, create, k, now, over).code == OK
    requires src in t && src.path == Normalized(srcPath).value
    ensures var p := Normalized(dstPath).value; var e := At(t, p);
            var v := Copy(t, srcPath, dstPath, create, k, now, over).tree;
            && !src.dir
            && At(v, p) == Some(if e.Some? then Node(p, false, e.value.mode, e.value.owner, src.data, e.value.ctime, now)
                                else Node(p, false, k.fileMode, k.uid, src.data, now, now))
            && (m.path != p && m in t ==> At(v, m.path) == Some(m))
            && (m.path != p && m in v && m !in t ==> Under(m.path, p) && MadeDir(m, k, now))
  {
    NoneThere(t, src);
    hide Normal, WellFormed, AllowedPath, Normalized, Write, Under, MadeDir, At;
    WriteLeaves(t, dstPath, src.data, create, k, now, over);
    if m.path != Normalized(dstPath).value {
      WriteElsewhere(t, dstPath, src.data, create, k, now, over, m);
    }
  }

  /** A mode change succeeds exactly on a node that is there. */
  lemma ChmodIff(t: Tree, path: Path, mode: nat, now: Int64)
    requires WellFormed(t)
    ensures var r := Chmod(t, path, mode, now); var q := Normalized(path);
            && (r.code == EBADPATH <==> q.None?)
            && (r.code == ENOTFOUND <==> q.Some? && !Exists(t, q.value))
            && (r.code == OK <==> q.Some? && Exists(t, q.value))
            && (r.code != OK ==> r.tree == t)
            && forall n :: n in r.tree ==> Exists(t, n.path)
  {
    hide Normal, WellFormed, Normalized;
    if Normalized(path).Some? {
      FoundAt(t, Normalized(path).value);
    }
  }

  /** It sets the nine permission bits and the modification time of that node and
      changes nothing else. */
  lemma ChmodChanges(t: Tree, path: Path, mode: nat, now: Int64, m: Node)
    requires WellFormed(t) && m in t && Chmod(t, path, mode, now).code == OK
    ensures At(Chmod(t, path, mode, now).tree, m.path)
            == Some(if m.path != Normalized(path).value then m
                    else Node(m.path, m.dir, mode % 512, m.owner, m.data, m.ctime, now))
  {
    ChmodKeeps(t, path, mode, now);
    NoneThere(t, m);
    hide Normal, WellFormed, Normalized, At;
    var v := Chmod(t, path, mode, now).tree;
    var n := if m.path != Normalized(path).value then m else m.(mode := mode % 512, mtime := now);
    assert n in v;
    WellFormedAt(v, n);
  }

  // ------------------------------------------------------------------
  // Reading
  // ------------------------------------------------------------------

  lemma ReadIff(t: Tree, path: Path)
    requires WellFormed(t)
    ensures var c := ReadCode(t, path); var q := Normalized(path);
            && (c == EBADPATH <==> q.None?)
            && (q.Some? ==>
                  && (c == ENOTFOUND <==> !Exists(t, q.value))
                  && (c == EISDIR <==> DirAt(t, q.value))
                  && (c == OK <==> FileAt(t, q.value)))
  {
    hide Normal, WellFormed, Normalized;
    if Normalized(path).Some? {
      FoundAt(t, Normalized(path).value);
    }
  }

  lemma ListIff(t: Tree, path: Path)
    requires WellFormed(t)
    ensures var c := ListCode(t, path); var q := Normalized(path);
            && (c == EBADPATH <==> q.None?)
            && (q == Some(ROOT) ==> c == OK)
            && (q.Some? && q.value != ROOT ==>
                  && (c == ENOTFOUND <==> !Exists(t, q.value))
                  && (c == ENOTDIR <==> FileAt(t, q.value))
                  && (c == OK <==> DirAt(t, q.value)))
  {
    hide Normal, WellFormed, Normalized;
    if Normalized(path).Some? {
      FoundAt(t, Normalized(path).value);
    }
  }

  /** A listing holds exactly the nodes one component below its directory. */
  lemma ListedIff(nodes: seq<Node>, d: Path, n: Node)
    requires Normal(n.path)
    ensures n in ChildNodes(nodes, d) <==> n in nodes && exists c :: Component(c) && n.path == d + [SLASH] + c
  {
    PathParts(n.path);
    NormalBase(n.path);
    hide Normal, Component;
    if Stem(n.path) == d {
      assert n.path == d + [SLASH] + Base(n.path);
    }
    forall c | Component(c) && n.path == d + [SLASH] + c
      ensures Stem(n.path) == d
    {
      ComponentHasNoSlash(c);
      ChildParts(d, c);
    }
  }

  lemma ComponentHasNoSlash(c: seq<byte>)
    requires Component(c)
    ensures SLASH !in c
  {
  }

  // ------------------------------------------------------------------
  // The quota
  // ------------------------------------------------------------------

  /** The quota test refuses exactly the writes that would leave more than the
      quota in the files, as long as the 64-bit sums do not wrap; no quota refuses
      nothing. */
  lemma QuotaIff(total: nat, quota: nat, held: nat, len: nat)
    requires held <= total && total + len < 0x1_0000_0000_0000_0000
    ensures OverQuota(Wrap(total), quota, held, len) <==> quota > 0 && total - held + len > quota
  {
  }
}
