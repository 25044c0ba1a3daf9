/** What a collection keeps and what it removes (cas-gc.c; vfs-snap.c:
    tree_resolve). */
module Preserve {
  import opened Bytes
  import opened Entries
  import opened Objects
  import opened Names
  import opened TreeText
  import opened Directory
  import opened Depots
  import opened Gc
  import opened Tour

  // ------------------------------------------------------------------
  // Nothing reachable is lost
  // ------------------------------------------------------------------

  /** Depot e still answers for everything the roots reach in d. */
  ghost predicate Preserves(d: Depot, e: Depot, roots: set<Addr>)
  {
    forall t :: Reachable(d, roots, t) ==> Open(e, t) == Open(d, t)
  }

  lemma MarkedStaysOpen(d: Depot, e: Depot, marked: set<Addr>, cutoff: int, mtimes: map<Digest, int>, t: Addr)
    requires e == Depot(Swept(d.loose, marked, cutoff, mtimes), d.pack) && t in marked
    ensures Open(e, t) == Open(d, t)
  {
    hide HexEncode, HexDecode;
    if IsHash(t) && IsLowerHash(t) && HexDecode(t) in d.loose {
      HexEncodeOfDecode(t);
    }
  }

  lemma CollectionPreserves(d: Depot, e: Depot, q: seq<Addr>, cutoff: int, mtimes: map<Digest, int>)
    requires Collected(d, e, q, cutoff, mtimes) && ReadsAll(d, q)
    ensures Preserves(d, e, SetOf(q))
  {
    hide Marked, CanMark, Swept, Open, Reachable, ReadsAll;
    ReadsAllMarks(d, q);
    forall t | Reachable(d, SetOf(q), t)
      ensures Open(e, t) == Open(d, t)
    {
      MarkedStaysOpen(d, e, Marked(d, q), cutoff, mtimes, t);
    }
  }

  lemma PreservesItself(d: Depot, roots: set<Addr>)
    ensures Preserves(d, d, roots)
  {
  }

  /** A depot on the way from d to e. */
  ghost predicate Between(d: Depot, x: Depot, e: Depot)
  {
    x.pack == e.pack && Grows(e.loose, x.loose) && Grows(x.loose, d.loose)
  }

  /** If nothing reachable is lost in the end, nothing is on the way. */
  lemma BetweenPreserves(d: Depot, x: Depot, e: Depot, roots: set<Addr>)
    requires Preserves(d, e, roots) && Between(d, x, e)
    ensures Preserves(d, x, roots)
  {
    hide Reachable, HexDecode, IsHash, IsLowerHash;
    forall t | Reachable(d, roots, t)
      ensures Open(x, t) == Open(d, t)
    {
      assert Open(e, t) == Open(d, t);
    }
  }

  /** A collection stopped in mid-sweep has lost nothing reachable either. */
  lemma StoppedCollectionPreserves(d: Depot, q: seq<Addr>, order: seq<Digest>, k: nat, cutoff: int, mtimes: map<Digest, int>)
    requires CanMark(d, q) && ReadsAll(d, q) && k <= |order|
    ensures Preserves(d, Depot(SweptSoFar(d.loose, order, k, Marked(d, q), cutoff, mtimes), d.pack), SetOf(q))
  {
    hide Marked, CanMark, ReadsAll, Reachable, Open, Preserves, Spared;
    var e := Depot(Swept(d.loose, Marked(d, q), cutoff, mtimes), d.pack);
    CollectionPreserves(d, e, q, cutoff, mtimes);
    BetweenPreserves(d, Depot(SweptSoFar(d.loose, order, k, Marked(d, q), cutoff, mtimes), d.pack), e, SetOf(q));
  }

  /** What is swept was reachable from nothing and old. */
  lemma SweptIsGarbage(d: Depot, e: Depot, q: seq<Addr>, cutoff: int, mtimes: map<Digest, int>, a: Digest)
    requires Collected(d, e, q, cutoff, mtimes) && ReadsAll(d, q) && a in d.loose
    ensures a !in e.loose <==>
            !Reachable(d, SetOf(q), HexEncode(a)) && !(cutoff > 0 && a in mtimes && mtimes[a] >= cutoff)
  {
    hide Marked, CanMark, Reachable, ReadsAll, HexEncode;
    ReadsAllMarks(d, q);
  }

  /** Whatever else the depot holds, what nothing reaches and no grace period
      spares is gone. */
  lemma UnreachedIsSwept(d: Depot, q: seq<Addr>, cutoff: int, mtimes: map<Digest, int>, a: Digest)
    requires CanMark(d, q) && !Reachable(d, SetOf(q), HexEncode(a))
    requires !(cutoff > 0 && a in mtimes && mtimes[a] >= cutoff)
    ensures a !in Swept(d.loose, Marked(d, q), cutoff, mtimes)
  {
    hide MarkAll, Reachable, HexEncode;
    InUniverse(d, q);
    MarkedIsReachable(d, Universe(d, SetOf(q)), q);
  }

  /** So is what only the first unread directory leads to, reachable or not. */
  lemma FirstUnreadIsSwept(d: Depot, q: seq<Addr>, i: nat, a: Digest, dir: bool, cutoff: int, mtimes: map<Digest, int>)
    requires CanMark(d, q) && FirstUnread(d, Order(d, q), i)
    requires var u := Order(d, q)[i].addr; HasChild(d, u, HexEncode(a), dir) && !ReachableAround(d, SetOf(q), {u}, HexEncode(a))
    requires !(cutoff > 0 && a in mtimes && mtimes[a] >= cutoff)
    ensures Reachable(d, SetOf(q), HexEncode(a)) && a !in Swept(d.loose, Marked(d, q), cutoff, mtimes)
  {
    hide Order, HasChild, ReachableAround, Reachable, Marked, CanMark, HexEncode, FirstUnread;
    FirstUnreadLoses(d, q, i, HexEncode(a), dir);
  }

  /** An object within the grace period is spared unless the period reaches
      back to the epoch: the cutoff is then not positive and spares nothing. */
  lemma GraceSpares(marked: set<Addr>, now: int, grace: int, mtimes: map<Digest, int>, a: Digest)
    requires grace > 0 && a in mtimes && mtimes[a] >= now - grace && HexEncode(a) !in marked
    ensures Spared(marked, Cutoff(now, grace), mtimes, a) <==> grace < now
  {
  }

  lemma SameOpenSameChild(d: Depot, e: Depot, u: Addr, t: Addr, dir: bool)
    requires Open(e, u) == Open(d, u)
    ensures HasChild(e, u, t, dir) == HasChild(d, u, t, dir)
  {
    hide Open, ListObject;
  }

  lemma {:induction false} PathSurvives(d: Depot, e: Depot, roots: set<Addr>, p: seq<Addr>, i: nat)
    requires Preserves(d, e, roots) && |p| > 0 && p[0] in roots && i < |p|
    ensures DirPath(d, p[..i + 1]) <==> DirPath(e, p[..i + 1])
  {
    hide Open, HasChild, Reachable;
    var now, before := p[..i + 1], p[..i];
    if i > 0 {
      PathSurvives(d, e, roots, p, i - 1);
      PathStep(d, p, i);
      PathStep(e, p, i);
      if DirPath(d, before) {
        LastReaches(d, roots, before);
        SameOpenSameChild(d, e, p[i - 1], p[i], true);
      }
    }
  }

  lemma PathStep(d: Depot, p: seq<Addr>, i: nat)
    requires 0 < i < |p|
    ensures DirPath(d, p[..i + 1]) <==> DirPath(d, p[..i]) && HasChild(d, p[i - 1], p[i], true)
  {
    hide HasChild;
    var now, before := p[..i + 1], p[..i];
    if DirPath(d, now) {
      assert HasChild(d, now[i - 1], now[i], true);
      forall k | 0 < k < i
        ensures HasChild(d, before[k - 1], before[k], true)
      {
        assert HasChild(d, now[k - 1], now[k], true);
      }
    }
  }

  lemma ReachingPath(d: Depot, roots: set<Addr>, t: Addr)
    ensures ReachesDir(d, roots, t) <==> exists p :: |p| > 0 && DirPath(d, p) && p[0] in roots && p[|p| - 1] == t
  {
    hide HasChild;
  }

  lemma LastReaches(d: Depot, roots: set<Addr>, p: seq<Addr>)
    requires DirPath(d, p) && p[0] in roots
    ensures Reachable(d, roots, p[|p| - 1])
  {
    hide HasChild;
    assert ReachesDir(d, roots, p[|p| - 1]);
  }

  /** A depot that still answers for everything reachable reaches the same. */
  lemma PreservedReachability(d: Depot, e: Depot, roots: set<Addr>, t: Addr)
    requires Preserves(d, e, roots)
    ensures ReachesDir(d, roots, t) <==> ReachesDir(e, roots, t)
    ensures Reachable(d, roots, t) <==> Reachable(e, roots, t)
  {
    hide HasChild, Open;
    SameDirs(d, e, roots, t);
    if u :| ReachesDir(d, roots, u) && HasChild(d, u, t, false) {
      SameDirs(d, e, roots, u);
      assert Reachable(d, roots, u);
      SameOpenSameChild(d, e, u, t, false);
    }
    if u :| ReachesDir(e, roots, u) && HasChild(e, u, t, false) {
      SameDirs(d, e, roots, u);
      assert Reachable(d, roots, u);
      SameOpenSameChild(d, e, u, t, false);
    }
  }

  lemma SameDirs(d: Depot, e: Depot, roots: set<Addr>, t: Addr)
    requires Preserves(d, e, roots)
    ensures ReachesDir(d, roots, t) <==> ReachesDir(e, roots, t)
  {
    hide HasChild, Open, Preserves;
    ReachingPath(d, roots, t);
    ReachingPath(e, roots, t);
    hide ReachesDir, DirPath;
    forall p | |p| > 0 && p[0] in roots
      ensures DirPath(d, p) <==> DirPath(e, p)
    {
      PathSurvives(d, e, roots, p, |p| - 1);
      assert p[..|p|] == p;
    }
    if p :| |p| > 0 && DirPath(d, p) && p[0] in roots && p[|p| - 1] == t {
      assert DirPath(e, p);
    }
    if p :| |p| > 0 && DirPath(e, p) && p[0] in roots && p[|p| - 1] == t {
      assert DirPath(d, p);
    }
  }

  // ------------------------------------------------------------------
  // Walking by names
  // ------------------------------------------------------------------

  /** The object that the names lead to from a root, as readers resolve a path
      (vfs-snap.c: tree_resolve) and then open what they found. */
  function Resolve(d: Depot, t: Addr, names: seq<seq<byte>>): Read
    decreases |names|
  {
    hide Load, Open, Find;
    if names == [] then Open(d, t)
    else match Load(d, t)
         case Listing(dir) =>
           (match Find(dir, names[0])
            case None => Gone
            case Some(e) => if |names| > 1 && !IsDirEntry(e) then BadAddress else Resolve(d, e.hash, names[1..]))
         case _ => Gone
  }

  /** Every path that led somewhere from a log entry before a collection leads
      to the same object after it. */
  lemma {:induction false} WalksSurvive(d: Depot, e: Depot, roots: set<Addr>, t: Addr, names: seq<seq<byte>>)
    requires Preserves(d, e, roots) && Reachable(d, roots, t) && (names != [] ==> ReachesDir(d, roots, t))
    ensures Resolve(e, t, names) == Resolve(d, t, names)
    decreases |names|
  {
    hide Open, Find, ReachesDir, ListObject;
    if names != [] {
      assert Load(e, t) == Load(d, t);
      if Load(d, t).Listing? {
        var dir := Load(d, t).dir;
        var f := Find(dir, names[0]);
        if f.Some? && !(|names| > 1 && !IsDirEntry(f.value)) {
          FindIsChild(d, t, names[0]);
          var x := f.value.hash;
          if IsDirEntry(f.value) {
            ChildReaches(d, roots, t, x);
          } else {
            FileReaches(d, roots, t, x);
          }
          WalksSurvive(d, e, roots, x, names[1..]);
        }
      }
    }
  }

  lemma FindIsChild(d: Depot, t: Addr, name: seq<byte>)
    requires Load(d, t).Listing? && Find(Load(d, t).dir, name).Some?
    ensures var e := Find(Load(d, t).dir, name).value; HasChild(d, t, e.hash, IsDirEntry(e))
  {
    hide Load, Find;
  }

  // ------------------------------------------------------------------
  // Where marking falls short
  // ------------------------------------------------------------------

  function Fill(c: byte): Digest { seq(32, _ => c) }

  function Item(c: byte, mode: nat, child: byte): Entry
  {
    Entry([c], mode, 0, 0, 0, 0, HexEncode(Fill(child)))
  }

  lemma FillsDiffer(a: byte, b: byte)
    requires a != b
    ensures HexEncode(Fill(a)) != HexEncode(Fill(b))
  {
    HexDecodeOfEncode(Fill(a));
    HexDecodeOfEncode(Fill(b));
    assert Fill(a)[0] != Fill(b)[0];
  }

  lemma SmallIsPrintable(dir: seq<Entry>)
    requires |dir| <= 2 && forall i :: 0 <= i < |dir| ==> dir[i].mode < U32 && IsLowerHash(dir[i].hash) && dir[i].name == [0x61 + i]
    ensures Printable(dir)
  {
    forall i | 0 <= i < |dir|
      ensures PrintableEntry(dir[i])
    {
      LowerIsHash(dir[i].hash);
      HexIsHashText(dir[i].hash);
      LetterIsValid(0x61 + i);
    }
  }

  lemma LetterIsValid(c: byte)
    requires 0x61 <= c <= 0x7A
    ensures ValidName([c])
  {
    assert [c][HeadLen([c])..] == [];
    assert WellFormed([c]);
  }

  lemma StoredTextLoads(d: Depot, c: byte, dir: seq<Entry>)
    requires Printable(dir) && Fill(c) !in d.pack && Fill(c) in d.loose
    requires d.loose[Fill(c)] == Object(TREE, Serialize(dir))
    ensures Load(d, HexEncode(Fill(c))) == Listing(dir)
  {
    hide Serialize, LoadText, Printable, HexEncode, HexDecode, IsLowerHash, IsHash, Fill;
    TextRoundTrip(dir);
    HexDecodeOfEncode(Fill(c));
    LowerIsHash(HexEncode(Fill(c)));
  }

  const TOP := [Item(0x61, S_IFREG, 2), Item(0x62, S_IFDIR, 2)]
  const SUB := [Item(0x61, S_IFREG, 3)]

  function DualUse(): Depot
  {
    Depot(map[Fill(1) := Object(TREE, Serialize(TOP)),
              Fill(2) := Object(TREE, Serialize(SUB)),
              Fill(3) := Object("blob", [])], map[])
  }

  lemma DualUseLoads()
    ensures Load(DualUse(), HexEncode(Fill(1))) == Listing(TOP)
    ensures Load(DualUse(), HexEncode(Fill(2))) == Listing(SUB)
    ensures Open(DualUse(), HexEncode(Fill(3))) == Got(Object("blob", []))
  {
    SmallIsPrintable(TOP);
    SmallIsPrintable(SUB);
    assert Fill(1)[0] != Fill(2)[0] && Fill(1)[0] != Fill(3)[0] && Fill(2)[0] != Fill(3)[0];
    hide Serialize, Printable, Load, HexEncode, HexDecode, Fill;
    HexDecodeOfEncode(Fill(3));
    LowerIsHash(HexEncode(Fill(3)));
    StoredTextLoads(DualUse(), 1, TOP);
    StoredTextLoads(DualUse(), 2, SUB);
  }

  /** A root that names one tree twice, as file a and as directory b: the tree is
      marked for a, found marked at b, and never read, so what it lists is left
      to the sweep although b/a leads to it. */
  lemma DualUseLosesAnObject()
    ensures var q, lost := [HexEncode(Fill(1))], HexEncode(Fill(3));
            && CanMark(DualUse(), q) && lost !in Marked(DualUse(), q)
            && Reachable(DualUse(), SetOf(q), lost) && Open(DualUse(), lost) == Got(Object("blob", []))
  {
    hide Serialize, Printable, Load, Open, DualUse, HexEncode, HasChild, ReachesDir;
    var d := DualUse();
    var t1, t2, t3 := HexEncode(Fill(1)), HexEncode(Fill(2)), HexEncode(Fill(3));
    DualUseLoads();
    FillsDiffer(1, 2);
    FillsDiffer(1, 3);
    FillsDiffer(2, 3);
    var q := [t1];
    var roots := SetOf(q);
    assert t1 in roots;
    RootReaches(d, roots, t1);
    assert IsDirEntry(TOP[1]) && !IsDirEntry(SUB[0]) && !IsDirEntry(TOP[0]);
    EntryIsChild(d, t1, TOP, 1);
    EntryIsChild(d, t2, SUB, 0);
    ChildReaches(d, roots, t1, t2);
    FileReaches(d, roots, t2, t3);
    InUniverse(d, q);
    MarkOfDualUse(d, Universe(d, roots), t1, t2, TOP);
    assert q[1..] == [];
  }

  lemma MarkOfDualUse(d: Depot, all: set<Addr>, t1: Addr, t2: Addr, top: seq<Entry>)
    requires Closed(d, all) && t1 in all && Load(d, t1) == Listing(top) && |top| == 2 && t1 != t2
    requires top[0].hash == top[1].hash == t2 && !IsDirEntry(top[0]) && IsDirEntry(top[1])
    ensures Mark(d, all, NOTHING, t1) == (Marks({t1, t2}, {t2}), true)
  {
    hide Load, IsDirEntry, Closed;
    ClosedNames(d, all, t1, top);
    var m1 := Marks({t1}, {});
    var m2 := AddFile(m1, t2);
    assert m2 == Marks({t1, t2}, {t2});
    var rest := top[1..];
    assert rest[0] == top[1] && rest[1..] == [];
    assert Mark(d, all, m2, t2) == (m2, true);
    assert MarkList(d, all, m2, rest) == MarkList(d, all, m2, []) == (m2, true);
    assert NOTHING.(s := NOTHING.s + {t1}) == m1;
    assert MarkList(d, all, m1, top) == MarkList(d, all, m2, rest);
  }

  lemma ClosedNames(d: Depot, all: set<Addr>, t: Addr, dir: seq<Entry>)
    requires Closed(d, all) && t in all && Load(d, t) == Listing(dir)
    ensures ListsOnly(dir, all)
  {
    hide Load;
  }
}
