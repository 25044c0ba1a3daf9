/** The in-memory filesystem: a flat node array with swap-removal (vfs.c), with
    a credential that every permission check admits. */
module Vfs {
  import opened Bytes
  import opened Entries
  import opened VfsPath
  import opened VfsTree

  // ------------------------------------------------------------------
  // The node array
  // ------------------------------------------------------------------

  ghost predicate NoDup(nodes: seq<Node>)
  {
    forall i, j :: 0 <= i < j < |nodes| ==> nodes[i].path != nodes[j].path
  }

  ghost function AsTree(nodes: seq<Node>): Tree { set n | n in nodes }

  /** Bytes held by all files. */
  function Total(nodes: seq<Node>): nat
  {
    if nodes == [] then 0 else Total(nodes[..|nodes| - 1]) + |nodes[|nodes| - 1].data|
  }

  lemma TotalAppend(nodes: seq<Node>, n: Node)
    ensures Total(nodes + [n]) == Total(nodes) + |n.data|
  {
    assert (nodes + [n])[..|nodes|] == nodes;
  }

  lemma {:induction false} TotalUpdate(nodes: seq<Node>, i: nat, n: Node)
    requires i < |nodes|
    ensures Total(nodes[i := n]) == Total(nodes) - |nodes[i].data| + |n.data|
    decreases |nodes|
  {
    var k := |nodes| - 1;
    if i < k {
      assert nodes[i := n][..k] == nodes[..k][i := n];
      TotalUpdate(nodes[..k], i, n);
    } else {
      assert nodes[i := n][..k] == nodes[..k];
    }
  }

  /** remove_node on the array: the last node fills the gap. */
  function SwapRemove(nodes: seq<Node>, i: nat): (r: seq<Node>)
    requires i < |nodes|
    ensures |r| == |nodes| - 1
  {
    nodes[i := nodes[|nodes| - 1]][..|nodes| - 1]
  }

  lemma SwapRemoved(nodes: seq<Node>, i: nat)
    requires i < |nodes| && NoDup(nodes)
    ensures var r := SwapRemove(nodes, i);
            NoDup(r) && AsTree(r) == AsTree(nodes) - {nodes[i]}
  {
    var r, n := SwapRemove(nodes, i), |nodes| - 1;
    assert forall j :: 0 <= j < n ==> r[j] == if j == i then nodes[n] else nodes[j];
    forall x | x in nodes && x != nodes[i]
      ensures x in r
    {
      var j :| 0 <= j < |nodes| && nodes[j] == x;
      assert r[if j == n then i else j] == x;
    }
  }

  lemma SwapTotal(nodes: seq<Node>, i: nat)
    requires i < |nodes|
    ensures Total(SwapRemove(nodes, i)) == Total(nodes) - |nodes[i].data|
  {
    var n := |nodes| - 1;
    TotalUpdate(nodes, i, nodes[n]);
    var u := nodes[i := nodes[n]];
    assert Total(u) == Total(u[..n]) + |u[n].data|;
  }

  lemma Appended(nodes: seq<Node>, n: Node)
    requires NoDup(nodes) && forall m :: m in nodes ==> m.path != n.path
    ensures NoDup(nodes + [n]) && AsTree(nodes + [n]) == AsTree(nodes) + {n}
  {
  }

  lemma Replaced(nodes: seq<Node>, i: nat, n: Node)
    requires i < |nodes| && NoDup(nodes) && n.path == nodes[i].path
    ensures NoDup(nodes[i := n]) && AsTree(nodes[i := n]) == AsTree(nodes) - {nodes[i]} + {n}
  {
    var r := nodes[i := n];
    forall x | x in nodes && x != nodes[i]
      ensures x in r
    {
      var j :| 0 <= j < |nodes| && nodes[j] == x;
      assert r[j] == x;
    }
    assert r[i] == n;
  }

  lemma AtIndex(nodes: seq<Node>, i: nat)
    requires i < |nodes| && NoDup(nodes)
    ensures At(AsTree(nodes), nodes[i].path) == Some(nodes[i])
  {
  }

  // ------------------------------------------------------------------
  // 64-bit usage
  // ------------------------------------------------------------------

  /** uint64_t arithmetic on the usage counter. */
  function Wrap(x: int): (r: nat)
    ensures r < U64
  {
    x % U64
  }

  lemma WrapAdd(x: int, d: int)
    ensures Wrap(Wrap(x) + d) == Wrap(x + d)
  {
    var q, r := x / U64, x % U64;
    assert x + d == q * U64 + (r + d);
  }

  /** The quota test of vfs_write. */
  predicate OverQuota(usage: nat, quota: nat, held: nat, len: nat)
  {
    quota > 0 && Wrap(Wrap(usage - held) + len) > quota
  }

  lemma {:induction false} TotalAtLeast(nodes: seq<Node>, i: nat)
    requires i < |nodes|
    ensures |nodes[i].data| <= Total(nodes)
    decreases |nodes|
  {
    if i < |nodes| - 1 {
      TotalAtLeast(nodes[..|nodes| - 1], i);
    }
  }

  class Vfs {
    var nodes: seq<Node>
    var usage: nat
    const quota: nat
    const maker: Maker

    ghost function T(): Tree
      reads this
    {
      AsTree(nodes)
    }

    ghost predicate Valid()
      reads this
    {
      NoDup(nodes) && WellFormed(T()) && usage == Wrap(Total(nodes))
    }

    ghost predicate WithinQuota()
      reads this
    {
      quota > 0 ==> Total(nodes) <= quota
    }

    /** vfs_new */
    constructor (quota: nat, maker: Maker)
      ensures Valid() && T() == {} && WithinQuota() && this.quota == quota && this.maker == maker
    {
      this.quota, this.maker := quota, maker;
      nodes, usage := [], 0;
    }

    /** vfs_normalize into a stack buffer of VFS_PATH_MAX bytes. */
    static method Norm(path: Path) returns (r: Option<Path>)
      ensures r == Normalized(path)
    {
      hide Normalized;
      if Normalized(path).Some? {
        NormalizedIsNormal(path);
        NormalizedIsShort(path);
      }
      var buf := new byte[PATH_MAX];
      var n := Normalize(buf, path);
      r := if n.Some? then Some(buf[..n.value]) else None;
    }

    /** find_node: the index, or -1 */
    method FindNode(path: Path) returns (i: int)
      ensures -1 <= i < |nodes|
      ensures i >= 0 ==> nodes[i].path == path
      ensures i < 0 ==> forall n :: n in nodes ==> n.path != path
    {
      for j := 0 to |nodes|
        invariant forall k :: 0 <= k < j ==> nodes[k].path != path
      {
        if nodes[j].path == path {
          return j;
        }
      }
      return -1;
    }

    /** FindNode as the tree sees it */
    method Lookup(path: Path) returns (i: int)
      requires NoDup(nodes)
      ensures -1 <= i < |nodes|
      ensures At(T(), path) == if i < 0 then None else Some(nodes[i])
      ensures i >= 0 ==> nodes[i].path == path
    {
      i := FindNode(path);
      if i >= 0 {
        AtIndex(nodes, i);
      }
    }

    /** add_node */
    method AddNode(n: Node)
      requires NoDup(nodes) && At(T(), n.path).None? && n.data == []
      modifies this`nodes
      ensures NoDup(nodes) && T() == old(T()) + {n} && nodes == old(nodes) + [n]
      ensures Total(nodes) == old(Total(nodes))
    {
      Appended(nodes, n);
      TotalAppend(nodes, n);
      nodes := nodes + [n];
    }

    /** remove_node */
    method RemoveNode(i: nat)
      requires i < |nodes| && NoDup(nodes) && usage == Wrap(Total(nodes))
      requires nodes[i].dir ==> nodes[i].data == []
      modifies this
      ensures nodes == SwapRemove(old(nodes), i)
      ensures NoDup(nodes) && T() == old(T()) - {old(nodes[i])} && usage == Wrap(Total(nodes))
      ensures Total(nodes) <= old(Total(nodes))
    {
      hide Wrap;
      SwapRemoved(nodes, i);
      SwapTotal(nodes, i);
      if !nodes[i].dir {
        WrapAdd(Total(nodes), -|nodes[i].data|);
        usage := Wrap(usage - |nodes[i].data|);
      }
      nodes := nodes[i := nodes[|nodes| - 1]][..|nodes| - 1];
    }

    /** ensure_parents */
    method MakeParents(path: Path, now: Int64) returns (ok: bool)
      requires NoDup(nodes) && WellFormed(T()) && Normal(path) && AllowedPath(path)
      modifies this`nodes
      ensures NoDup(nodes) && Total(nodes) == old(Total(nodes))
      ensures ok <==> EnsureParents(old(T()), path, maker, now).Some?
      ensures ok ==> T() == EnsureParents(old(T()), path, maker, now).value
      ensures !ok ==> nodes == old(nodes)
      ensures HasParent(old(T()), path) ==> nodes == old(nodes)
      decreases |path|
    {
      StemIsAllowed(path);
      hide Normal, WellFormed, Component, AllowedPath;
      NormalHasSlash(path);
      var parent := Parent(path);
      if Stem(path) != [] {
        StemIsNormal(path);
        NormalNotRoot(Stem(path));
      }
      if parent == ROOT {
        return true;
      }
      AtDir(T(), parent);
      var i := Lookup(parent);
      if i >= 0 {
        return nodes[i].dir;
      }
      ParentsMade(T(), parent, maker, now);
      ok := MakeParents(parent, now);
      if !ok {
        return false;
      }
      SamePlace(old(T()), T(), parent);
      AddNode(NewDir(parent, maker, now));
    }

    /** The part of write and mkdir that looks at or makes the parents. */
    method PrepareParent(path: Path, create: bool, now: Int64) returns (code: Code)
      requires NoDup(nodes) && WellFormed(T()) && Normal(path) && AllowedPath(path)
      modifies this`nodes
      ensures NoDup(nodes) && Total(nodes) == old(Total(nodes))
      ensures var r := MakeRoom(old(T()), path, create, maker, now); code == r.0 && T() == r.1
      ensures HasParent(old(T()), path) ==> nodes == old(nodes)
    {
      hide Normal, WellFormed, Component, AllowedPath;
      if create {
        var ok := MakeParents(path, now);
        return if ok then OK else ENOTDIR;
      }
      var parent := Parent(path);
      NormalHasSlash(path);
      if Stem(path) != [] {
        StemIsNormal(path);
        NormalNotRoot(Stem(path));
      }
      if parent != ROOT {
        var i := Lookup(parent);
        if i < 0 {
          return ENOTFOUND;
        }
        if !nodes[i].dir {
          return ENOTDIR;
        }
      }
      return OK;
    }

    /** The quota test for a path as the tree stands. */
    ghost predicate Over(path: Path, len: nat)
      reads this
    {
      Normalized(path).Some?
      && var e := At(T(), Normalized(path).value);
         OverQuota(usage, quota, if e.Some? then |e.value.data| else 0, len)
    }

    /** Replace a file's contents and account for them. */
    method StoreData(i: nat, data: seq<byte>, now: Int64)
      requires i < |nodes| && NoDup(nodes) && usage == Wrap(Total(nodes))
      modifies this
      ensures NoDup(nodes) && usage == Wrap(Total(nodes))
      ensures T() == old(T()) - {old(nodes[i])} + {old(nodes[i]).(data := data, mtime := now)}
      ensures Total(nodes) == old(Total(nodes)) - |old(nodes[i]).data| + |data|
    {
      hide Wrap;
      var n := nodes[i].(data := data, mtime := now);
      Replaced(nodes, i, n);
      TotalUpdate(nodes, i, n);
      var held := |nodes[i].data|;
      WrapAdd(Total(nodes), -held);
      WrapAdd(Total(nodes) - held, |data|);
      nodes := nodes[i := n];
      usage := Wrap(usage - held);
      usage := Wrap(usage + |data|);
    }

    /** vfs_write.  The index of the node found at the start is still good after
        the parents were made: a node that exists has its parents, so none are. */
    method WriteFile(path: Path, data: seq<byte>, create: bool, now: Int64) returns (code: Code)
      requires Valid()
      modifies this
      ensures Valid()
      ensures var r := Write(old(T()), path, data, create, maker, now, old(Over(path, |data|)));
              code == r.code && T() == r.tree
      ensures old(WithinQuota()) && old(Total(nodes)) + |data| < U64 ==> WithinQuota()
    {
      hide Normal, WellFormed, Normalized, AllowedPath, MakeRoom, Wrap, OverQuota, Total, NoDup;
      ghost var t := T();
      WriteKeeps(t, path, data, create, maker, now, Over(path, |data|));
      var q := Norm(path);
      if q.None? {
        return EBADPATH;
      }
      var p := q.value;
      if p == ROOT {
        return EISDIR;
      }
      NormalizedParts(path);
      NormalizedIsShort(path);
      var ok := ValidateComponents(p);
      if !ok {
        return EBADPATH;
      }
      var existing := Lookup(p);
      var held := 0;
      if existing >= 0 {
        if nodes[existing].dir {
          return EISDIR;
        }
        held := |nodes[existing].data|;
        TotalAtLeast(nodes, existing);
        ExistsUnderParent(t, nodes[existing]);
      }
      if OverQuota(usage, quota, held, |data|) {
        return EQUOTA;
      }
      QuotaHolds(Total(nodes), usage, quota, held, |data|);
      RoomMade(t, p, create, maker, now);
      code := PrepareParent(p, create, now);
      if code != OK {
        return;
      }
      if existing >= 0 {
        StoreData(existing, data, now);
        return OK;
      }
      AddNode(NewFile(p, [], maker, now));
      StoreData(|nodes| - 1, data, now);
      return OK;
    }

    /** vfs_mkdir */
    method MakeDir(path: Path, create: bool, now: Int64) returns (code: Code)
      requires Valid()
      modifies this
      ensures Valid() && Total(nodes) == old(Total(nodes))
      ensures var r := Mkdir(old(T()), path, create, maker, now); code == r.code && T() == r.tree
    {
      hide Normal, WellFormed, Normalized, AllowedPath, MakeRoom, Wrap, Total, NoDup;
      ghost var t := T();
      MkdirKeeps(t, path, create, maker, now);
      var q := Norm(path);
      if q.None? {
        return EBADPATH;
      }
      var p := q.value;
      if p == ROOT {
        return OK;
      }
      NormalizedParts(path);
      NormalizedIsShort(path);
      var ok := ValidateComponents(p);
      if !ok {
        return EBADPATH;
      }
      var existing := Lookup(p);
      if existing >= 0 {
        return if nodes[existing].dir && create then OK else EEXIST;
      }
      RoomMade(t, p, create, maker, now);
      code := PrepareParent(p, create, now);
      if code != OK {
        return;
      }
      AddNode(NewDir(p, maker, now));
    }

    /** count_children of a path other than the root */
    method CountChildren(path: Path) returns (count: nat)
      ensures count == NumberUnder(nodes, |nodes|, path)
      ensures count > 0 <==> Occupied(T(), path)
    {
      hide Under;
      count := 0;
      for i := 0 to |nodes|
        invariant count == NumberUnder(nodes, i, path)
        invariant count > 0 <==> exists k :: 0 <= k < i && Under(path, nodes[k].path)
      {
        if Under(path, nodes[i].path) {
          count := count + 1;
        }
      }
    }

    /** vfs_delete */
    method Remove(path: Path) returns (code: Code)
      requires Valid()
      modifies this
      ensures Valid() && Total(nodes) <= old(Total(nodes))
      ensures var r := Delete(old(T()), path); code == r.code && T() == r.tree
    {
      hide Normal, WellFormed, Normalized, Wrap, Total, NoDup, Occupied;
      DeleteKeeps(T(), path);
      var q := Norm(path);
      if q.None? {
        return EBADPATH;
      }
      if q.value == ROOT {
        return EPERM;
      }
      var i := Lookup(q.value);
      if i < 0 {
        return ENOTFOUND;
      }
      if nodes[i].dir {
        var count := CountChildren(q.value);
        if count > 0 {
          return ENOTEMPTY;
        }
      }
      DirsAreEmpty(T(), nodes[i]);
      RemoveNode(i);
      return OK;
    }

    /** The backward scan of vfs_delete_recursive: what the last node leaves
        behind when it fills a gap has been scanned already. */
    method RemoveUnder(path: Path)
      requires NoDup(nodes) && usage == Wrap(Total(nodes))
      requires forall n :: n in T() && n.dir ==> n.data == []
      modifies this
      ensures NoDup(nodes) && usage == Wrap(Total(nodes)) && Total(nodes) <= old(Total(nodes))
      ensures T() == set m | m in old(T()) && !Under(path, m.path)
    {
      hide Under, Wrap, Total, NoDup;
      ghost var t := T();
      var i := |nodes|;
      while i > 0
        invariant 0 <= i <= |nodes| && NoDup(nodes) && usage == Wrap(Total(nodes)) && Total(nodes) <= old(Total(nodes))
        invariant T() <= t
        invariant forall m :: m in t && !Under(path, m.path) ==> m in T()
        invariant forall k :: i <= k < |nodes| ==> !Under(path, nodes[k].path)
      {
        i := i - 1;
        if Under(path, nodes[i].path) {
          ghost var before := nodes;
          RemoveNode(i);
          assert forall k :: i <= k < |nodes| ==> nodes[k] == before[if k == i then |nodes| else k];
        }
      }
    }

    /** What vfs_delete_recursive removes of a directory: everything below it, then
        the node itself, found again. */
    method RemoveTree(p: Path, ghost n: Node)
      requires NoDup(nodes) && usage == Wrap(Total(nodes)) && WellFormed(T()) && n in T() && n.path == p
      modifies this
      ensures NoDup(nodes) && usage == Wrap(Total(nodes)) && Total(nodes) <= old(Total(nodes))
      ensures T() == Without(old(T()), p)
    {
      hide Wrap, Total, NoDup, Under, WellFormed, Without, At;
      ghost var t := T();
      WithoutParts(t, n);
      NotUnderItself(p);
      OneAt(t, n);
      RemoveUnder(p);
      assert n in T();
      var i := Lookup(p);
      if i >= 0 {
        assert nodes[i] in T();
        RemoveNode(i);
      }
      assert T() == Without(t, p);
    }

    /** vfs_delete_recursive */
    method RemoveRecursive(path: Path) returns (code: Code)
      requires Valid()
      modifies this
      ensures Valid() && Total(nodes) <= old(Total(nodes))
      ensures var r := DeleteRecursive(old(T()), path); code == r.code && T() == r.tree
    {
      hide Normalized, WellFormed, Wrap, Total, NoDup, Without;
      ghost var t := T();
      var q := Norm(path);
      if q.None? {
        return EBADPATH;
      }
      var p := q.value;
      if p == ROOT {
        return EPERM;
      }
      var i := Lookup(p);
      if i < 0 {
        return ENOTFOUND;
      }
      WithoutKeeps(t, p);
      ghost var n := nodes[i];
      if !nodes[i].dir {
        WithoutParts(t, n);
        RemoveNode(i);
        return OK;
      }
      RemoveTree(p, n);
      return OK;
    }

    /** The node loop of vfs_rename: every descendant gets its new path. */
    method MoveUnder(o: Path, p: Path, now: Int64)
      requires NoDup(nodes)
      modifies this`nodes
      ensures |nodes| == |old(nodes)|
      ensures forall i :: 0 <= i < |nodes| ==>
                nodes[i] == if Under(o, old(nodes)[i].path) then MovedNode(old(nodes)[i], o, p, now) else old(nodes)[i]
    {
      for i := 0 to |nodes|
        invariant |nodes| == |old(nodes)|
        invariant forall k :: 0 <= k < i ==>
                    nodes[k] == if Under(o, old(nodes)[k].path) then MovedNode(old(nodes)[k], o, p, now) else old(nodes)[k]
        invariant forall k :: i <= k < |nodes| ==> nodes[k] == old(nodes)[k]
      {
        var c := nodes[i];
        if Under(o, c.path) {
          var suffix := c.path[|o|..];
          nodes := nodes[i := c.(path := p + suffix, mtime := now)];
        }
      }
    }

    /** vfs_rename */
    method Move(oldPath: Path, newPath: Path, now: Int64) returns (code: Code)
      requires Valid()
      modifies this
      ensures Valid() && Total(nodes) <= old(Total(nodes))
      ensures var r := Rename(old(T()), oldPath, newPath, now); code == r.code && T() == r.tree
    {
      hide Normal, WellFormed, Normalized, AllowedPath, Wrap, Total, NoDup, Occupied, Under, MovedTree;
      ghost var t := T();
      RenameKeeps(t, oldPath, newPath, now);
      var a := Norm(oldPath);
      if a.None? {
        return EBADPATH;
      }
      var b := Norm(newPath);
      if b.None? {
        return EBADPATH;
      }
      var o, p := a.value, b.value;
      if o == ROOT || p == ROOT {
        return EPERM;
      }
      NormalizedParts(oldPath);
      NormalizedParts(newPath);
      NormalizedIsShort(newPath);
      var ok := ValidateComponents(p);
      if !ok {
        return EBADPATH;
      }
      if o == p {
        return OK;
      }
      if Under(o, p) {
        return EBADPATH;
      }
      var src := Lookup(o);
      if src < 0 {
        return ENOTFOUND;
      }
      ghost var n := nodes[src];
      var dst := Lookup(p);
      if dst >= 0 {
        if nodes[dst].dir {
          var count := CountChildren(p);
          if count > 0 {
            return ENOTEMPTY;
          }
        }
        DirsAreEmpty(T(), nodes[dst]);
        ghost var d := nodes[dst];
        RemoveNode(dst);
        assert T() == t - {d};
        src := Lookup(o);
        assert n in T();
      }
      assert T() == Vacated(t, p);
      DestinationIsFree(t, o, p);
      var rc := CheckParent(p);
      if rc != OK {
        return rc;
      }
      MoveSubtree(o, p, src, now);
      return OK;
    }

    /** The parent test of vfs_rename. */
    method CheckParent(p: Path) returns (rc: Code)
      requires NoDup(nodes) && Normal(p)
      ensures rc == ParentCode(T(), p)
    {
      NormalHasSlash(p);
      if Stem(p) != [] {
        StemIsNormal(p);
        NormalNotRoot(Stem(p));
      }
      hide Normal, NoDup;
      var parent := Parent(p);
      if parent != ROOT {
        var i := Lookup(parent);
        if i < 0 {
          return ENOTFOUND;
        }
        if !nodes[i].dir {
          return ENOTDIR;
        }
      }
      return OK;
    }

    /** The last part of vfs_rename: the descendants, then the node itself. */
    method MoveSubtree(o: Path, p: Path, src: nat, now: Int64)
      requires NoDup(nodes) && WellFormed(T()) && src < |nodes| && nodes[src].path == o
      requires Normal(o) && Normal(p) && AllowedPath(p) && DirectlyFree(T(), o, p)
      modifies this`nodes
      ensures NoDup(nodes) && T() == MovedTree(old(T()), o, p, now) && Total(nodes) == old(Total(nodes))
    {
      hide Normal, Total, WellFormed, DirectlyFree, AllowedPath;
      ghost var before := nodes;
      if nodes[src].dir {
        MoveUnder(o, p, now);
      } else {
        FileIsLeaf(T(), nodes[src]);
      }
      assert o[|o|..] == [];
      assert p + o[|o|..] == p;
      NotUnderItself(o);
      nodes := nodes[src := nodes[src].(path := p, mtime := now)];
      AllMoved(before, nodes, o, p, src, now);
    }

    ghost predicate CopyOver(srcPath: Path, dstPath: Path)
      reads this
    {
      Normalized(srcPath).Some?
      && var e := At(T(), Normalized(srcPath).value);
         e.Some? && Over(dstPath, |e.value.data|)
    }

    /** vfs_copy */
    method CopyFile(srcPath: Path, dstPath: Path, create: bool, now: Int64) returns (code: Code)
      requires Valid()
      modifies this
      ensures Valid()
      ensures var r := Copy(old(T()), srcPath, dstPath, create, maker, now, old(CopyOver(srcPath, dstPath)));
              code == r.code && T() == r.tree
      ensures old(WithinQuota()) && 2 * old(Total(nodes)) < U64 ==> WithinQuota()
    {
      hide Normal, WellFormed, Normalized, Write, Wrap, Total, NoDup, OverQuota;
      var q := Norm(srcPath);
      if q.None? {
        return EBADPATH;
      }
      var i := Lookup(q.value);
      if i < 0 {
        return ENOTFOUND;
      }
      if nodes[i].dir {
        return EISDIR;
      }
      TotalAtLeast(nodes, i);
      code := WriteFile(dstPath, nodes[i].data, create, now);
    }

    /** vfs_chmod by an administrator */
    method ChangeMode(path: Path, mode: nat, now: Int64) returns (code: Code)
      requires Valid()
      modifies this
      ensures Valid() && Total(nodes) == old(Total(nodes))
      ensures var r := Chmod(old(T()), path, mode, now); code == r.code && T() == r.tree
    {
      hide Normal, WellFormed, Normalized, Wrap, Total, NoDup;
      ChmodKeeps(T(), path, mode, now);
      var q := Norm(path);
      if q.None? {
        return EBADPATH;
      }
      var i := Lookup(q.value);
      if i < 0 {
        return ENOTFOUND;
      }
      var n := nodes[i].(mode := mode % 0x200, mtime := now);
      Replaced(nodes, i, n);
      TotalUpdate(nodes, i, n);
      nodes := nodes[i := n];
      return OK;
    }

    /** vfs_list: the direct children, in array order. */
    method ListDir(path: Path) returns (code: Code, out: seq<Node>)
      requires Valid()
      ensures code == ListCode(T(), path)
      ensures code == OK ==> out == ChildNodes(nodes, if Normalized(path).value == ROOT then [] else Normalized(path).value)
      ensures code != OK ==> out == []
    {
      hide Normal, WellFormed, Normalized, Wrap, Total, NoDup, ChildNodes;
      var q := Norm(path);
      if q.None? {
        return EBADPATH, [];
      }
      var p := q.value;
      if p != ROOT {
        var i := Lookup(p);
        if i < 0 {
          return ENOTFOUND, [];
        }
        if !nodes[i].dir {
          return ENOTDIR, [];
        }
      }
      ghost var d := if p == ROOT then [] else p;
      if p != ROOT {
        NormalizedParts(path);
      }
      out := [];
      NoChildNodes(nodes, d);
      for i := 0 to |nodes|
        invariant out == ChildNodes(nodes[..i], d)
      {
        NodeIsNormal(T(), nodes[i]);
        ChildTest(p, nodes[i].path);
        ChildNodesStep(nodes, i, d);
        if IsDirectChild(p, nodes[i].path) {
          out := out + [nodes[i]];
        }
      }
      assert nodes[..|nodes|] == nodes;
      return OK, out;
    }

    /** vfs_read */
    method ReadFile(path: Path) returns (code: Code, data: seq<byte>)
      requires Valid()
      ensures code == ReadCode(T(), path)
      ensures code == OK ==> data == At(T(), Normalized(path).value).value.data
    {
      hide Normal, WellFormed, Normalized, Wrap, Total, NoDup;
      var q := Norm(path);
      if q.None? {
        return EBADPATH, [];
      }
      var i := Lookup(q.value);
      if i < 0 {
        return ENOTFOUND, [];
      }
      if nodes[i].dir {
        return EISDIR, [];
      }
      return OK, nodes[i].data;
    }

    /** Any sequence of calls.  Every state it passes through is valid and what
        the call before it makes of the tree, and stays within a quota when no
        single write could wrap the 64-bit sums. */
    method RunCalls(calls: seq<Call>) returns (ghost trail: seq<Tree>)
      requires Valid()
      modifies this
      ensures Valid()
      ensures Trail(calls, maker, trail) && trail[0] == old(T()) && trail[|calls|] == T()
      ensures old(WithinQuota()) && NeverWraps(quota, calls) ==> WithinQuota()
    {
      hide Valid, Total, CallMakes, WellFormed;
      ValidTree();
      trail := [T()];
      for i := 0 to |calls|
        invariant Valid() && |trail| == i + 1 && trail[0] == old(T()) && trail[i] == T()
        invariant forall k :: 0 <= k < i ==> CallMakes(trail[k], calls[k], maker, trail[k + 1])
        invariant forall k :: 0 <= k <= i ==> WellFormed(trail[k])
        invariant old(WithinQuota()) && NeverWraps(quota, calls) ==> WithinQuota()
      {
        var c := calls[i];
        var _ := RunCall(c);
        ValidTree();
        trail := trail + [T()];
      }
    }

    lemma ValidTree()
      requires Valid()
      ensures WellFormed(T())
    {
      hide WellFormed;
    }

    method RunCall(c: Call) returns (code: Code)
      requires Valid()
      modifies this
      ensures Valid()
      ensures CallMakes(old(T()), c, maker, T())
      ensures old(WithinQuota()) && CallFits(quota, c) ==> WithinQuota()
    {
      hide Valid, Total, Write, Mkdir, Delete, DeleteRecursive, Rename, Copy, Chmod;
      ghost var t, over := T(), false;
      match c
      case DoWrite(path, data, create, now) =>
        over := Over(path, |data|);
        code := WriteFile(path, data, create, now);
        assert Effect(t, c, maker, over) == Outcome(code, T());
      case DoMkdir(path, create, now) =>
        code := MakeDir(path, create, now);
        assert Effect(t, c, maker, over) == Outcome(code, T());
      case DoDelete(path) =>
        code := Remove(path);
        assert Effect(t, c, maker, over) == Outcome(code, T());
      case DoDeleteRecursive(path) =>
        code := RemoveRecursive(path);
        assert Effect(t, c, maker, over) == Outcome(code, T());
      case DoRename(a, b, now) =>
        code := Move(a, b, now);
        assert Effect(t, c, maker, over) == Outcome(code, T());
      case DoCopy(a, b, create, now) =>
        over := CopyOver(a, b);
        code := CopyFile(a, b, create, now);
        assert Effect(t, c, maker, over) == Outcome(code, T());
      case DoChmod(path, mode, now) =>
        code := ChangeMode(path, mode, now);
        assert Effect(t, c, maker, over) == Outcome(code, T());
    }
  }

  /** How many of the first n nodes lie below a path. */
  function NumberUnder(nodes: seq<Node>, n: nat, path: Path): nat
    requires n <= |nodes|
  {
    if n == 0 then 0 else NumberUnder(nodes, n - 1, path) + if Under(path, nodes[n - 1].path) then 1 else 0
  }

  datatype Call =
    | DoWrite(path: Path, data: seq<byte>, create: bool, now: Int64)
    | DoMkdir(path: Path, create: bool, now: Int64)
    | DoDelete(path: Path)
    | DoDeleteRecursive(path: Path)
    | DoRename(path: Path, dest: Path, now: Int64)
    | DoCopy(path: Path, dest: Path, create: bool, now: Int64)
    | DoChmod(path: Path, mode: nat, now: Int64)

  /** What a call makes of the tree, given what the quota test says of it. */
  ghost function Effect(t: Tree, c: Call, k: Maker, over: bool): Outcome
  {
    match c
    case DoWrite(path, data, create, now) => Write(t, path, data, create, k, now, over)
    case DoMkdir(path, create, now) => Mkdir(t, path, create, k, now)
    case DoDelete(path) => Delete(t, path)
    case DoDeleteRecursive(path) => DeleteRecursive(t, path)
    case DoRename(a, b, now) => Rename(t, a, b, now)
    case DoCopy(a, b, create, now) => Copy(t, a, b, create, k, now, over)
    case DoChmod(path, mode, now) => Chmod(t, path, mode, now)
  }

  ghost predicate CallMakes(t: Tree, c: Call, k: Maker, u: Tree)
  {
    exists over: bool :: Effect(t, c, k, over).tree == u
  }

  /** The trees a run of calls passes through. */
  ghost predicate Trail(calls: seq<Call>, k: Maker, trail: seq<Tree>)
  {
    && |trail| == |calls| + 1
    && (forall i :: 0 <= i < |calls| ==> CallMakes(trail[i], calls[i], k, trail[i + 1]))
    && (forall i :: 0 <= i <= |calls| ==> WellFormed(trail[i]))
  }

  /** What a call may add to a total within the quota does not wrap it. */
  predicate CallFits(quota: nat, c: Call)
  {
    quota > 0 && 2 * quota < U64 && (c.DoWrite? ==> quota + |c.data| < U64)
  }

  predicate NeverWraps(quota: nat, calls: seq<Call>)
  {
    forall i :: 0 <= i < |calls| ==> CallFits(quota, calls[i])
  }

  // ------------------------------------------------------------------
  // Listing
  // ------------------------------------------------------------------

  /** vfs_list's test on a node's path. */
  predicate IsDirectChild(dir: Path, p: Path)
  {
    if dir == ROOT then |p| >= 2 && p[0] == SLASH && SLASH !in p[1..]
    else Under(dir, p) && SLASH !in p[|dir| + 1..]
  }

  lemma ChildTest(dir: Path, p: Path)
    requires Normal(p) && (dir == ROOT || dir != [])
    ensures IsDirectChild(dir, p) <==> Stem(p) == if dir == ROOT then [] else dir
  {
    PathParts(p);
    NormalNotRoot(p);
    NormalBase(p);
    var d := if dir == ROOT then [] else dir;
    if IsDirectChild(dir, p) {
      assert p == Child(d, p[|d| + 1..]);
      ChildParts(d, p[|d| + 1..]);
    }
    if Stem(p) == d {
      assert p[|d| + 1..] == Base(p);
      assert p[..|d|] == d;
    }
  }

  lemma NodeIsNormal(t: Tree, n: Node)
    requires WellFormed(t) && n in t
    ensures Normal(n.path)
  {
  }

  function ChildNodes(nodes: seq<Node>, d: Path): (r: seq<Node>)
    ensures forall n :: n in r <==> n in nodes && Stem(n.path) == d
  {
    if nodes == [] then []
    else
      assert nodes == nodes[..|nodes| - 1] + [nodes[|nodes| - 1]];
      ChildNodes(nodes[..|nodes| - 1], d) + if Stem(nodes[|nodes| - 1].path) == d then [nodes[|nodes| - 1]] else []
  }

  lemma NoChildNodes(nodes: seq<Node>, d: Path)
    ensures ChildNodes(nodes[..0], d) == []
  {
  }

  lemma ChildNodesStep(nodes: seq<Node>, i: nat, d: Path)
    requires i < |nodes|
    ensures ChildNodes(nodes[..i + 1], d) == ChildNodes(nodes[..i], d) + if Stem(nodes[i].path) == d then [nodes[i]] else []
    ensures ChildNodes(nodes[..i], d) + [] == ChildNodes(nodes[..i], d)
  {
    assert nodes[..i + 1][..i] == nodes[..i];
  }

  lemma {:induction false} ChildNodesDistinct(nodes: seq<Node>, d: Path)
    requires NoDup(nodes)
    ensures NoDup(ChildNodes(nodes, d))
    decreases |nodes|
  {
    if nodes != [] {
      ChildNodesDistinct(nodes[..|nodes| - 1], d);
    }
  }

  ghost function ListCode(t: Tree, path: Path): Code
  {
    var q := Normalized(path);
    if q.None? then EBADPATH
    else if q.value == ROOT then OK
    else if At(t, q.value).None? then ENOTFOUND
    else if At(t, q.value).value.dir then OK else ENOTDIR
  }

  ghost function ReadCode(t: Tree, path: Path): Code
  {
    var q := Normalized(path);
    if q.None? then EBADPATH
    else if At(t, q.value).None? then ENOTFOUND
    else if At(t, q.value).value.dir then EISDIR else OK
  }

  lemma WithoutParts(t: Tree, n: Node)
    requires WellFormed(t) && n in t
    ensures !n.dir ==> Without(t, n.path) == t - {n}
    ensures forall m :: m in Without(t, n.path) <==> m in t && m != n && !Under(n.path, m.path)
    ensures forall m :: m in t && m.dir ==> m.data == []
  {
    hide Normal, Under;
    if !n.dir {
      FileIsLeaf(t, n);
    }
    NotUnderItself(n.path);
  }

  lemma OneAt(t: Tree, n: Node)
    requires WellFormed(t) && n in t
    ensures forall m :: m in t && m.path == n.path ==> m == n
  {
    hide Normal;
  }

  lemma SameTotal(a: seq<Node>, b: seq<Node>)
    requires |a| == |b| && forall i :: 0 <= i < |a| ==> a[i].data == b[i].data
    ensures Total(a) == Total(b)
  {
    if a != [] {
      SameTotal(a[..|a| - 1], b[..|b| - 1]);
    }
  }

  lemma AllMoved(a: seq<Node>, b: seq<Node>, o: Path, p: Path, src: nat, now: Int64)
    requires WellFormed(AsTree(a)) && NoDup(a) && src < |a| && a[src].path == o
    requires Normal(o) && Normal(p) && AllowedPath(p) && DirectlyFree(AsTree(a), o, p)
    requires |a| == |b| && forall i :: 0 <= i < |a| ==> b[i] == MovedNode(a[i], o, p, now)
    ensures NoDup(b) && AsTree(b) == MovedTree(AsTree(a), o, p, now) && Total(b) == Total(a)
  {
    hide Normal, WellFormed, Under;
    SameTotal(a, b);
    forall i, j | 0 <= i < j < |a|
      ensures b[i].path != b[j].path
    {
      if b[i].path == b[j].path {
        MovedApart(AsTree(a), o, p, now, a[i], a[j]);
      }
    }
    forall n | n in MovedTree(AsTree(a), o, p, now)
      ensures n in b
    {
      var m :| m in AsTree(a) && MovedNode(m, o, p, now) == n;
      var i :| 0 <= i < |a| && a[i] == m;
      assert b[i] == n;
    }
  }

  lemma ExistsUnderParent(t: Tree, n: Node)
    requires WellFormed(t) && n in t
    ensures HasParent(t, n.path)
  {
    hide Normal;
  }

  /** Passing the quota test keeps the total within the quota, as long as the
      64-bit sums do not wrap. */
  lemma QuotaHolds(total: nat, usage: nat, quota: nat, held: nat, len: nat)
    requires usage == Wrap(total) && held <= total && !OverQuota(usage, quota, held, len)
    ensures quota > 0 && total + len < U64 ==> total - held + len <= quota
  {
  }
}
