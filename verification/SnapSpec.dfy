/** What a snapshot of a filesystem tree is: the directory objects and addresses
    it determines (vfs-snap.c: snap_dir). */
module SnapSpec {
  import opened Bytes
  import Names
  import opened Entries
  import opened Objects
  import opened Directory
  import opened VfsPath
  import opened VfsTree

  const BLOB := "blob"

  function BlobOf(n: Node): Object { Object(BLOB, n.data) }

  function ModeOf(n: Node): nat { (if n.dir then S_IFDIR else S_IFREG) + n.mode % 0x200 }

  lemma ModeTells(n: Node)
    ensures FileType(ModeOf(n)) == if n.dir then S_IFDIR else S_IFREG
    ensures ModeOf(n) < U32
  {
  }

  /** The tree a snapshot is taken of. */
  ghost predicate Snappable(t: Tree) { WellFormed(t) && Short(t) }

  /** A node a snapshot can hold: its name is one the tree layer accepts and its
      path fits the snapshot code's buffers. */
  predicate Accepted(n: Node) { Names.ValidName(Base(n.path)) && |n.path| < PATH_MAX }

  ghost predicate AllAccepted(t: Tree) { forall n :: n in t ==> Accepted(n) }

  /** A path as it arrives in a 4096-byte buffer. */
  function Cut(p: Path): (q: Path)
    ensures |q| < PATH_MAX
  {
    if |p| < PATH_MAX then p else p[..PATH_MAX - 1]
  }

  /** The nodes whose paths fit, which are a tree of their own. */
  ghost function Brief(t: Tree): Tree { set n | n in t && |n.path| < PATH_MAX }

  lemma BriefIsSnappable(t: Tree)
    requires WellFormed(t)
    ensures Snappable(Brief(t)) && Brief(t) <= t && (Short(t) ==> Brief(t) == t)
  {
    hide Normal, AllowedPath;
    var s := Brief(t);
    forall n | n in s
      ensures HasParent(s, n.path)
    {
      if Stem(n.path) != [] {
        assert HasParent(t, n.path);
        var m :| m in t && m.path == Stem(n.path) && m.dir;
        assert m in s;
      }
    }
  }

  ghost function ChildSet(t: Tree, d: Path): Tree { set n | n in t && Stem(n.path) == d }

  lemma ChildIsLonger(t: Tree, d: Path, n: Node)
    requires WellFormed(t) && n in ChildSet(t, d)
    ensures |n.path| > |d| && Normal(n.path)
  {
    NormalHasSlash(n.path);
  }

  // ------------------------------------------------------------------
  // Listings and addresses
  // ------------------------------------------------------------------

  /** dir lists exactly these entries, in name order. */
  ghost predicate Lists(dir: seq<Entry>, es: set<Entry>)
  {
    Ascending(dir) && forall e :: e in dir <==> e in es
  }

  ghost function TheListing(es: set<Entry>): (dir: seq<Entry>)
  {
    if exists dir :: Lists(dir, es) then
      var dir :| Lists(dir, es);
      dir
    else []
  }

  /** The entry of a node: its blob's address, or that of its own listing. */
  ghost function EntryOf(hash: HashFn, t: Tree, n: Node): Entry
    requires Snappable(t) && n in t
    decreases PATH_MAX - |n.path|, 1
  {
    Entry(Base(n.path), ModeOf(n), n.owner, 0, n.mtime, 0,
          HexEncode(if n.dir then DirDigest(hash, t, n.path) else hash(BlobOf(n))))
  }

  ghost function EntrySet(hash: HashFn, t: Tree, d: Path): set<Entry>
    requires Snappable(t) && |d| < PATH_MAX
    decreases PATH_MAX - |d|, 0, 0
  {
    set n | n in ChildSet(t, d) && (ChildIsLonger(t, d, n); true) :: EntryOf(hash, t, n)
  }

  ghost function SnapListing(hash: HashFn, t: Tree, d: Path): seq<Entry>
    requires Snappable(t) && |d| < PATH_MAX
    decreases PATH_MAX - |d|, 0, 1
  {
    TheListing(EntrySet(hash, t, d))
  }

  /** The address of the directory at d: a function of the tree alone, whatever
      the order of its nodes. */
  ghost function DirDigest(hash: HashFn, t: Tree, d: Path): Digest
    requires Snappable(t) && |d| < PATH_MAX
    decreases PATH_MAX - |d|, 0, 2
  {
    TreeAddress(hash, SnapListing(hash, t, d))
  }

  lemma ListingIsUnique(dir: seq<Entry>, es: set<Entry>)
    requires Lists(dir, es)
    ensures TheListing(es) == dir
  {
    hide Names.Less, Ascending;
    var other := TheListing(es);
    AscendingIsUnique(dir, other);
  }
}
