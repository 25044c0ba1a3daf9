/** Mark and sweep (cas-gc.c). */
module Gc {
  import opened Bytes
  import opened Entries
  import opened Objects
  import opened Directory
  import opened Depots

  // ------------------------------------------------------------------
  // What marking computes
  // ------------------------------------------------------------------

  /** The marked addresses, and those of them first added for a file entry:
      marked, but not walked. */
  datatype Marks = Marks(s: set<Addr>, files: set<Addr>)

  predicate ListsOnly(dir: seq<Entry>, all: set<Addr>) { forall e :: e in dir ==> e.hash in all }

  /** mark_tree as a function of the marks it starts from.  The addresses still
      unmarked shrink at every call, so it ends on any graph, cycles included. */
  ghost function Mark(d: Depot, all: set<Addr>, m: Marks, t: Addr): (r: (Marks, bool))
    requires Closed(d, all) && t in all
    ensures m.s <= r.0.s && t in r.0.s
    decreases all - m.s, 0
  {
    if t in m.s then (m, true)
    else
      var m1 := m.(s := m.s + {t});
      match Load(d, t)
      case Missing => (m1, true)
      case WrongType => (m1, false)
      case Corrupt => (m1, false)
      case Listing(dir) =>
        assert ListsOnly(dir, all);
        MarkList(d, all, m1, dir)
  }

  /** The entry loop of mark_tree. */
  ghost function MarkList(d: Depot, all: set<Addr>, m: Marks, dir: seq<Entry>): (r: (Marks, bool))
    requires Closed(d, all) && ListsOnly(dir, all)
    ensures m.s <= r.0.s
    decreases all - m.s, 1, |dir|
  {
    if dir == [] then (m, true)
    else if IsDirEntry(dir[0]) then
      var r := Mark(d, all, m, dir[0].hash);
      if !r.1 then r else MarkList(d, all, r.0, dir[1..])
    else MarkList(d, all, AddFile(m, dir[0].hash), dir[1..])
  }

  function AddFile(m: Marks, t: Addr): Marks
  {
    if t in m.s then m else Marks(m.s + {t}, m.files + {t})
  }

  // ------------------------------------------------------------------
  // The code
  // ------------------------------------------------------------------

  class HashSet {
    var hashes: seq<Addr>

    ghost function Elems(): set<Addr>
      reads this
    {
      set i | 0 <= i < |hashes| :: hashes[i]
    }

    constructor ()
      ensures Elems() == {}
    {
      hashes := [];
    }

    /** hash_set_contains */
    method Contains(t: Addr) returns (found: bool)
      ensures found <==> t in Elems()
    {
      for i := 0 to |hashes|
        invariant forall k :: 0 <= k < i ==> hashes[k] != t
      {
        if hashes[i] == t {
          return true;
        }
      }
      return false;
    }

    /** hash_set_add */
    method Add(t: Addr)
      modifies this
      ensures Elems() == old(Elems()) + {t}
    {
      var found := Contains(t);
      if !found {
        hashes := hashes + [t];
        assert hashes[|hashes| - 1] == t;
        assert forall i :: 0 <= i < |old(hashes)| ==> hashes[i] == old(hashes)[i];
      }
    }
  }

  /** mark_tree */
  method MarkTree(d: Depot, marks: HashSet, t: Addr, ghost all: set<Addr>, ghost m: Marks) returns (ok: bool)
    requires Closed(d, all) && t in all && m.s == marks.Elems()
    modifies marks
    ensures marks.Elems() == Mark(d, all, m, t).0.s && ok == Mark(d, all, m, t).1
    decreases all - m.s, 0
  {
    hide Load;
    var found := marks.Contains(t);
    if found {
      return true;
    }
    marks.Add(t);
    ghost var m1 := m.(s := m.s + {t});
    match Load(d, t)
    case Missing =>
      return true;
    case WrongType =>
      return false;
    case Corrupt =>
      return false;
    case Listing(dir) =>
      assert ListsOnly(dir, all);
      ok := MarkEntries(d, marks, dir, all, m1);
  }

  method MarkEntries(d: Depot, marks: HashSet, dir: seq<Entry>, ghost all: set<Addr>, ghost m: Marks) returns (ok: bool)
    requires Closed(d, all) && ListsOnly(dir, all) && m.s == marks.Elems()
    modifies marks
    ensures marks.Elems() == MarkList(d, all, m, dir).0.s && ok == MarkList(d, all, m, dir).1
    decreases all - m.s, 1
  {
    hide Load, Closed, Mark;
    ghost var now := m;
    assert dir[0..] == dir;
    for i := 0 to |dir|
      invariant m.s <= now.s == marks.Elems()
      invariant MarkList(d, all, now, dir[i..]) == MarkList(d, all, m, dir)
    {
      assert dir[i..][1..] == dir[i + 1..];
      var e := dir[i];
      if IsDirEntry(e) {
        ok := MarkTree(d, marks, e.hash, all, now);
        now := Mark(d, all, now, e.hash).0;
        if !ok {
          return false;
        }
      } else {
        marks.Add(e.hash);
        now := AddFile(now, e.hash);
      }
    }
    return true;
  }

  // ------------------------------------------------------------------
  // What is marked
  // ------------------------------------------------------------------

  /** Everything a listing at t names is in s, and the load did not fail. */
  ghost predicate Walked(d: Depot, s: set<Addr>, t: Addr)
  {
    && !Load(d, t).WrongType? && !Load(d, t).Corrupt?
    && (Load(d, t).Listing? ==> ListsOnly(Load(d, t).dir, s))
  }

  /** x is named by a file entry of a directory that can be reached. */
  ghost predicate FileChild(d: Depot, roots: set<Addr>, x: Addr)
  {
    exists u :: ReachesDir(d, roots, u) && HasChild(d, u, x, false)
  }

  /** What a call adds: only reachable addresses, each of them walked unless it
      was added for a file entry. */
  ghost predicate Adds(d: Depot, roots: set<Addr>, m: Marks, r: Marks, ok: bool)
  {
    && m.s <= r.s && m.files <= r.files
    && (ok ==> forall x :: x in r.s - m.s ==> x in r.files || Walked(d, r.s, x))
    && (forall x :: x in r.s - m.s ==> Reachable(d, roots, x))
    && (forall x :: x in r.files - m.files ==> FileChild(d, roots, x))
  }

  lemma AddsTransitive(d: Depot, roots: set<Addr>, a: Marks, b: Marks, c: Marks, ok: bool)
    requires Adds(d, roots, a, b, true) && Adds(d, roots, b, c, ok)
    ensures Adds(d, roots, a, c, ok)
  {
    hide Load, Reachable, FileChild;
  }

  lemma {:induction false} MarkAdds(d: Depot, all: set<Addr>, roots: set<Addr>, m: Marks, t: Addr)
    requires Closed(d, all) && t in all && ReachesDir(d, roots, t)
    ensures Adds(d, roots, m, Mark(d, all, m, t).0, Mark(d, all, m, t).1)
    decreases all - m.s, 0
  {
    hide Load, ReachesDir, FileChild;
    if t !in m.s && Load(d, t).Listing? {
      var m1 := m.(s := m.s + {t});
      var dir := Load(d, t).dir;
      assert ListsOnly(dir, all);
      MarkListAdds(d, all, roots, m1, t, dir, 0);
      assert dir[0..] == dir;
    }
  }

  lemma {:induction false} MarkListAdds(d: Depot, all: set<Addr>, roots: set<Addr>, m: Marks, t: Addr,
        dir: seq<Entry>, i: nat)
    requires Closed(d, all) && ReachesDir(d, roots, t) && Load(d, t) == Listing(dir) && i <= |dir|
    requires ListsOnly(dir[i..], all)
    ensures var r := MarkList(d, all, m, dir[i..]);
            Adds(d, roots, m, r.0, r.1) && (r.1 ==> ListsOnly(dir[i..], r.0.s))
    decreases all - m.s, 1, |dir| - i
  {
    hide Load, ReachesDir, Closed, Mark, HasChild, Reachable, FileChild;
    if i < |dir| {
      var e := dir[i];
      assert dir[i..][1..] == dir[i + 1..];
      EntryIsChild(d, t, dir, i);
      if IsDirEntry(e) {
        var r := Mark(d, all, m, e.hash);
        ChildReaches(d, roots, t, e.hash);
        MarkAdds(d, all, roots, m, e.hash);
        if r.1 {
          MarkListAdds(d, all, roots, r.0, t, dir, i + 1);
          var r2 := MarkList(d, all, r.0, dir[i + 1..]);
          AddsTransitive(d, roots, m, r.0, r2.0, r2.1);
        }
      } else {
        var m1 := AddFile(m, e.hash);
        FileReaches(d, roots, t, e.hash);
        MarkListAdds(d, all, roots, m1, t, dir, i + 1);
        var r2 := MarkList(d, all, m1, dir[i + 1..]);
        AddsTransitive(d, roots, m, m1, r2.0, r2.1);
      }
    }
  }

  lemma FileReaches(d: Depot, roots: set<Addr>, u: Addr, x: Addr)
    requires ReachesDir(d, roots, u) && HasChild(d, u, x, false)
    ensures FileChild(d, roots, x) && Reachable(d, roots, x)
  {
    hide ReachesDir, HasChild;
  }

  lemma EntryIsChild(d: Depot, t: Addr, dir: seq<Entry>, i: nat)
    requires Load(d, t) == Listing(dir) && i < |dir|
    ensures HasChild(d, t, dir[i].hash, IsDirEntry(dir[i]))
  {
    hide Load;
  }

  // ------------------------------------------------------------------
  // Marking from every log entry
  // ------------------------------------------------------------------

  const NOTHING := Marks({}, {})

  /** The marks after each root in turn, up to the first failure. */
  ghost function MarkAll(d: Depot, all: set<Addr>, m: Marks, roots: seq<Addr>): (r: (Marks, bool))
    requires Closed(d, all) && forall t :: t in roots ==> t in all
    ensures m.s <= r.0.s
    decreases |roots|
  {
    if roots == [] then (m, true)
    else
      var r := Mark(d, all, m, roots[0]);
      if !r.1 then r else MarkAll(d, all, r.0, roots[1..])
  }

  function InTurn(logs: seq<seq<Addr>>): seq<Addr>
  {
    if logs == [] then [] else logs[0] + InTurn(logs[1..])
  }

  /** mark_ref over every ref, mark_log_entry over each log: each log is given
      by the roots its reader delivers, and a failed mark ends both loops. */
  method MarkRefs(d: Depot, marks: HashSet, logs: seq<seq<Addr>>, ghost all: set<Addr>) returns (ok: bool)
    requires Closed(d, all) && marks.Elems() == {}
    requires forall t :: t in InTurn(logs) ==> t in all
    modifies marks
    ensures marks.Elems() == MarkAll(d, all, NOTHING, InTurn(logs)).0.s
    ensures ok == MarkAll(d, all, NOTHING, InTurn(logs)).1
  {
    hide Load, Closed, Mark;
    ghost var whole := MarkAll(d, all, NOTHING, InTurn(logs));
    ghost var now := NOTHING;
    assert logs[0..] == logs;
    for i := 0 to |logs|
      invariant now.s == marks.Elems()
      invariant forall t :: t in InTurn(logs[i..]) ==> t in all
      invariant MarkAll(d, all, now, InTurn(logs[i..])) == whole
    {
      var log := logs[i];
      ghost var rest := InTurn(logs[i + 1..]);
      assert logs[i..][1..] == logs[i + 1..];
      assert log[0..] + rest == InTurn(logs[i..]);
      for j := 0 to |log|
        invariant now.s == marks.Elems()
        invariant forall t :: t in log[j..] + rest ==> t in all
        invariant MarkAll(d, all, now, log[j..] + rest) == whole
      {
        ghost var left := log[j..] + rest;
        assert left[0] == log[j] && left[1..] == log[j + 1..] + rest;
        assert log[j] in left;
        assert forall t :: t in log[j + 1..] + rest ==> t in left;
        ok := MarkTree(d, marks, log[j], all, now);
        now := Mark(d, all, now, log[j]).0;
        if !ok {
          return false;
        }
      }
      assert log[|log|..] + rest == rest;
    }
    return true;
  }

  function SetOf(roots: seq<Addr>): set<Addr> { set t | t in roots }

  lemma {:induction false} MarkAllAdds(d: Depot, all: set<Addr>, roots: set<Addr>, m: Marks, q: seq<Addr>)
    requires Closed(d, all) && SetOf(q) <= roots <= all
    ensures Adds(d, roots, m, MarkAll(d, all, m, q).0, MarkAll(d, all, m, q).1)
    ensures MarkAll(d, all, m, q).1 ==> forall t :: t in q ==> t in MarkAll(d, all, m, q).0.s
    decreases |q|
  {
    hide Closed, Mark, Reachable, FileChild, Walked, ReachesDir;
    if q != [] {
      assert q[0] in SetOf(q);
      assert forall t :: t in q[1..] ==> t in SetOf(q);
      RootReaches(d, roots, q[0]);
      MarkAdds(d, all, roots, m, q[0]);
      var r := Mark(d, all, m, q[0]);
      if r.1 {
        MarkAllAdds(d, all, roots, r.0, q[1..]);
        var r2 := MarkAll(d, all, r.0, q[1..]);
        AddsTransitive(d, roots, m, r.0, r2.0, r2.1);
        assert forall t :: t in q ==> t == q[0] || t in q[1..];
      }
    }
  }

  /** No directory that can be walked to is also named by a file entry. */
  ghost predicate NoDualUse(d: Depot, roots: set<Addr>)
  {
    forall t :: ReachesDir(d, roots, t) && FileChild(d, roots, t) ==> !Load(d, t).Listing?
  }

  /** No address first marked for a file entry, and so never descended into, is
      also a directory on some path that names something unmarked. */
  ghost predicate FilesWalked(d: Depot, roots: set<Addr>, r: Marks)
  {
    forall t :: t in r.files && ReachesDir(d, roots, t) && Load(d, t).Listing? ==> Walked(d, r.s, t)
  }

  lemma WalkedNames(d: Depot, s: set<Addr>, u: Addr, t: Addr, dir: bool)
    requires Walked(d, s, u) && HasChild(d, u, t, dir)
    ensures t in s
  {
    hide Load;
  }

  lemma PrefixReaches(d: Depot, roots: set<Addr>, p: seq<Addr>, i: nat)
    requires DirPath(d, p) && p[0] in roots && i < |p|
    ensures ReachesDir(d, roots, p[i])
  {
    hide HasChild;
    assert DirPath(d, p[..i + 1]);
    assert p[..i + 1][i] == p[i];
  }

  lemma {:induction false} PathIsMarked(d: Depot, roots: set<Addr>, r: Marks, p: seq<Addr>, i: nat)
    requires FilesWalked(d, roots, r) && Adds(d, roots, NOTHING, r, true) && roots <= r.s
    requires DirPath(d, p) && p[0] in roots && i < |p|
    ensures p[i] in r.s
  {
    if i > 0 {
      PathIsMarked(d, roots, r, p, i - 1);
      assert HasChild(d, p[i - 1], p[i], true);
      PrefixReaches(d, roots, p, i - 1);
      hide ReachesDir, FileChild, Walked, Reachable;
      DirIsWalked(d, roots, r, p[i - 1], p[i], true);
      WalkedNames(d, r.s, p[i - 1], p[i], true);
    }
  }

  lemma DirIsWalked(d: Depot, roots: set<Addr>, r: Marks, u: Addr, t: Addr, dir: bool)
    requires FilesWalked(d, roots, r) && Adds(d, roots, NOTHING, r, true)
    requires ReachesDir(d, roots, u) && u in r.s && HasChild(d, u, t, dir)
    ensures Walked(d, r.s, u)
  {
    hide ReachesDir, FileChild, Reachable, Walked;
    assert Load(d, u).Listing?;
    assert u in r.s - NOTHING.s;
  }

  lemma WalkedIsMarked(d: Depot, all: set<Addr>, q: seq<Addr>, t: Addr)
    requires Closed(d, all) && SetOf(q) <= all
    requires MarkAll(d, all, NOTHING, q).1 && FilesWalked(d, SetOf(q), MarkAll(d, all, NOTHING, q).0)
    requires Reachable(d, SetOf(q), t)
    ensures t in MarkAll(d, all, NOTHING, q).0.s
  {
    hide Mark, MarkAll, Load, Closed, HasChild, Walked, FilesWalked, FileChild;
    var r := MarkAll(d, all, NOTHING, q).0;
    var roots := SetOf(q);
    MarkAllAdds(d, all, roots, NOTHING, q);
    if ReachesDir(d, roots, t) {
      var p :| DirPath(d, p) && p[0] in roots && p[|p| - 1] == t;
      PathIsMarked(d, roots, r, p, |p| - 1);
    } else {
      var u :| ReachesDir(d, roots, u) && HasChild(d, u, t, false);
      var p :| DirPath(d, p) && p[0] in roots && p[|p| - 1] == u;
      PathIsMarked(d, roots, r, p, |p| - 1);
      DirIsWalked(d, roots, r, u, t, false);
      WalkedNames(d, r.s, u, t, false);
    }
  }

  /** When marking succeeds it has found only what the log entries reach through
      the directories present, and all of it exactly when FilesWalked holds. */
  lemma MarkedIsReachable(d: Depot, all: set<Addr>, q: seq<Addr>)
    requires Closed(d, all) && SetOf(q) <= all && MarkAll(d, all, NOTHING, q).1
    ensures var r := MarkAll(d, all, NOTHING, q).0;
            && (forall t :: t in r.s ==> Reachable(d, SetOf(q), t))
            && (FilesWalked(d, SetOf(q), r) <==> forall t :: Reachable(d, SetOf(q), t) ==> t in r.s)
  {
    hide Mark, MarkAll, Closed, Reachable, FilesWalked, FileChild, Walked;
    var r := MarkAll(d, all, NOTHING, q).0;
    var roots := SetOf(q);
    MarkAllAdds(d, all, roots, NOTHING, q);
    assert r.s - NOTHING.s == r.s;
    if FilesWalked(d, roots, r) {
      forall t | Reachable(d, roots, t)
        ensures t in r.s
      {
        WalkedIsMarked(d, all, q, t);
      }
    }
    if forall t :: Reachable(d, roots, t) ==> t in r.s {
      ReachableIsWalked(d, roots, r);
    }
  }

  lemma ReachableIsWalked(d: Depot, roots: set<Addr>, r: Marks)
    requires forall t :: Reachable(d, roots, t) ==> t in r.s
    ensures FilesWalked(d, roots, r)
  {
    hide ReachesDir, Open, Reachable;
    forall u | u in r.files && ReachesDir(d, roots, u) && Load(d, u).Listing?
      ensures Walked(d, r.s, u)
    {
      forall e | e in Load(d, u).dir
        ensures e.hash in r.s
      {
        assert HasChild(d, u, e.hash, IsDirEntry(e));
        if IsDirEntry(e) {
          ChildReaches(d, roots, u, e.hash);
          DirReaches(d, roots, e.hash);
        } else {
          FileReaches(d, roots, u, e.hash);
        }
      }
    }
  }

  lemma DirReaches(d: Depot, roots: set<Addr>, t: Addr)
    requires ReachesDir(d, roots, t)
    ensures Reachable(d, roots, t)
  {
    hide ReachesDir;
  }

  // ------------------------------------------------------------------
  // Sweep
  // ------------------------------------------------------------------

  /** The oldest modification time that is spared; 0 spares nothing. */
  function Cutoff(now: int, grace: int): int { if grace > 0 then now - grace else 0 }

  /** sweep_visitor's verdict on one loose object */
  predicate Spared(marked: set<Addr>, cutoff: int, mtimes: map<Digest, int>, a: Digest)
  {
    HexEncode(a) in marked || (cutoff > 0 && a in mtimes && mtimes[a] >= cutoff)
  }

  function Swept<T>(loose: map<Digest, T>, marked: set<Addr>, cutoff: int, mtimes: map<Digest, int>): map<Digest, T>
  {
    map a | a in loose && Spared(marked, cutoff, mtimes, a) :: loose[a]
  }

  ghost predicate Distinct(order: seq<Digest>)
  {
    forall i, j :: 0 <= i < j < |order| ==> order[i] != order[j]
  }

  /** The order a directory walk meets the loose objects in. */
  ghost predicate Enumerates(order: seq<Digest>, keys: set<Digest>)
  {
    Distinct(order) && forall a :: a in order <==> a in keys
  }

  /** What is left once the walk has visited its first k objects. */
  function SweptSoFar<T>(loose: map<Digest, T>, order: seq<Digest>, k: nat, marked: set<Addr>, cutoff: int,
        mtimes: map<Digest, int>): map<Digest, T>
    requires k <= |order|
  {
    map a | a in loose && (a !in order[..k] || Spared(marked, cutoff, mtimes, a)) :: loose[a]
  }

  /** cas_foreach with sweep_visitor, stopped after its first steps visits: takes
      the loose objects one by one, in the order the bucket directories give. */
  method Sweep<T>(was: map<Digest, T>, order: seq<Digest>, marks: HashSet, cutoff: int, mtimes: map<Digest, int>, steps: nat)
    returns (loose: map<Digest, T>, removed: nat)
    requires Enumerates(order, was.Keys) && steps <= |order|
    ensures loose == SweptSoFar(was, order, steps, marks.Elems(), cutoff, mtimes)
    ensures removed == |was| - |loose|
  {
    EnumeratesDistinct(order, was.Keys);
    hide *;
    removed, loose := 0, was;
    ghost var marked := marks.Elems();
    ghost var gone: set<Digest> := {};
    NoneDropped(order, marked, cutoff, mtimes);
    assert was - {} == was;
    for i := 0 to steps
      invariant loose == was - gone && removed == |gone|
      invariant Dropped(order, i, marked, cutoff, mtimes, gone)
    {
      var a := order[i];
      var found := marks.Contains(HexEncode(a));
      SparedIs(marked, cutoff, mtimes, a);
      GoneStep(order, i, marked, cutoff, mtimes, gone);
      if !found && !(cutoff > 0 && a in mtimes && mtimes[a] >= cutoff) {
        DropOne(was, gone, a);
        loose := loose - {a};
        removed := removed + 1;
        gone := gone + {a};
      }
    }
    DroppedIsSwept(was, order, steps, marked, cutoff, mtimes, gone);
  }

  /** A walk to its end leaves exactly what is spared. */
  lemma SweptToTheEnd<T>(was: map<Digest, T>, order: seq<Digest>, marked: set<Addr>, cutoff: int, mtimes: map<Digest, int>)
    requires Enumerates(order, was.Keys)
    ensures SweptSoFar(was, order, |order|, marked, cutoff, mtimes) == Swept(was, marked, cutoff, mtimes)
  {
    hide Spared, Distinct;
    assert order[..|order|] == order;
  }

  class Collector {
    var loose: map<Digest, Object>
    var pack: map<Digest, Object>

    constructor (d: Depot)
      ensures this.D() == d
    {
      loose, pack := d.loose, d.pack;
    }

    ghost function D(): Depot
      reads this
    {
      Depot(loose, pack)
    }

    /** cas_tree_gc, stopped after its first steps visits: mark from every log
        entry of every ref, then sweep.  A mark that fails leaves the depot
        alone. */
    method Gc(logs: seq<seq<Addr>>, order: seq<Digest>, now: int, grace: int, mtimes: map<Digest, int>, steps: nat)
      returns (ok: bool, removed: nat)
      requires Enumerates(order, loose.Keys) && steps <= |order|
      modifies this`loose
      ensures ok <==> CanMark(old(D()), InTurn(logs))
      ensures ok ==> loose == SweptSoFar(old(loose), order, steps, Marked(old(D()), InTurn(logs)), Cutoff(now, grace), mtimes)
      ensures ok && steps == |order| ==> Collected(old(D()), D(), InTurn(logs), Cutoff(now, grace), mtimes)
      ensures ok && steps == |order| ==>
                forall a :: a in loose <==>
                  a in old(loose) && (HexEncode(a) in Marked(old(D()), InTurn(logs))
                                      || (0 < grace < now && a in mtimes && mtimes[a] >= now - grace))
      ensures !ok ==> D() == old(D())
      ensures removed == |old(loose)| - |loose|
    {
      hide Swept, SweptSoFar, MarkAll, HexEncode, Cutoff;
      ghost var d, all := D(), Universe(D(), SetOf(InTurn(logs)));
      InUniverse(d, InTurn(logs));
      var marks := new HashSet();
      ok := MarkRefs(Depot(loose, pack), marks, logs, all);
      if !ok {
        return false, 0;
      }
      SweptToTheEnd(loose, order, marks.Elems(), Cutoff(now, grace), mtimes);
      SweptIff(loose, marks.Elems(), now, grace, mtimes);
      loose, removed := Sweep(loose, order, marks, Cutoff(now, grace), mtimes, steps);
    }
  }

  /** What a sweep leaves: the marked, and with a grace period shorter than the
      time since the epoch what is not older than it.  Without one only the
      marked. */
  lemma SweptIff<T>(was: map<Digest, T>, marked: set<Addr>, now: int, grace: int, mtimes: map<Digest, int>)
    ensures forall a :: a in Swept(was, marked, Cutoff(now, grace), mtimes) <==>
              a in was && (HexEncode(a) in marked || (0 < grace < now && a in mtimes && mtimes[a] >= now - grace))
  {
    hide HexEncode;
  }

  lemma SparedIs(marked: set<Addr>, cutoff: int, mtimes: map<Digest, int>, a: Digest)
    ensures Spared(marked, cutoff, mtimes, a)
            <==> HexEncode(a) in marked || (cutoff > 0 && a in mtimes && mtimes[a] >= cutoff)
  {
  }

  /** The objects a sweep has removed after i of its visits. */
  ghost predicate Dropped(order: seq<Digest>, i: nat, marked: set<Addr>, cutoff: int, mtimes: map<Digest, int>,
        gone: set<Digest>)
    requires i <= |order|
  {
    forall a :: a in gone <==> a in order[..i] && !Spared(marked, cutoff, mtimes, a)
  }

  lemma EnumeratesDistinct(order: seq<Digest>, keys: set<Digest>)
    requires Enumerates(order, keys)
    ensures Distinct(order)
  {
  }

  lemma NoneDropped(order: seq<Digest>, marked: set<Addr>, cutoff: int, mtimes: map<Digest, int>)
    ensures Dropped(order, 0, marked, cutoff, mtimes, {})
  {
  }

  lemma DropOne<T>(was: map<Digest, T>, gone: set<Digest>, a: Digest)
    ensures was - gone - {a} == was - (gone + {a})
  {
  }

  lemma GoneStep(order: seq<Digest>, i: nat, marked: set<Addr>, cutoff: int, mtimes: map<Digest, int>, gone: set<Digest>)
    requires i < |order| && Dropped(order, i, marked, cutoff, mtimes, gone)
    requires Distinct(order)
    ensures order[i] !in gone
    ensures if Spared(marked, cutoff, mtimes, order[i]) then Dropped(order, i + 1, marked, cutoff, mtimes, gone)
            else Dropped(order, i + 1, marked, cutoff, mtimes, gone + {order[i]})
  {
    hide Spared;
    assert order[..i + 1] == order[..i] + [order[i]];
    assert order[i] !in order[..i];
  }

  lemma DroppedIsSwept<T>(was: map<Digest, T>, order: seq<Digest>, k: nat, marked: set<Addr>, cutoff: int,
        mtimes: map<Digest, int>, gone: set<Digest>)
    requires k <= |order| && Dropped(order, k, marked, cutoff, mtimes, gone) && Enumerates(order, was.Keys)
    ensures was - gone == SweptSoFar(was, order, k, marked, cutoff, mtimes)
    ensures |gone| == |was| - |was - gone|
  {
    hide Spared, Distinct;
    GoneWasThere(was, order, k, marked, cutoff, mtimes, gone);
    RestSize(was, gone);
  }

  lemma InUniverse(d: Depot, q: seq<Addr>)
    ensures Closed(d, Universe(d, SetOf(q)))
    ensures SetOf(q) <= Universe(d, SetOf(q))
    ensures forall t :: t in q ==> t in Universe(d, SetOf(q))
  {
    UniverseIsClosed(d, SetOf(q));
    hide Closed, Named;
    assert forall t :: t in q ==> t in SetOf(q);
  }

  lemma GoneWasThere<T>(was: map<Digest, T>, order: seq<Digest>, k: nat, marked: set<Addr>, cutoff: int, mtimes: map<Digest,
        int>, gone: set<Digest>)
    requires k <= |order| && Dropped(order, k, marked, cutoff, mtimes, gone) && Enumerates(order, was.Keys)
    ensures gone <= was.Keys
  {
    hide Spared, Distinct;
    forall a | a in gone
      ensures a in was.Keys
    {
      assert a in order[..k];
      assert a in order;
    }
  }

  lemma RestSize<T>(was: map<Digest, T>, gone: set<Digest>)
    requires gone <= was.Keys
    ensures |gone| == |was| - |was - gone|
  {
    assert (was - gone).Keys == was.Keys - gone;
    assert |was - gone| == |(was - gone).Keys| && |was| == |was.Keys|;
  }

  ghost predicate CanMark(d: Depot, q: seq<Addr>)
  {
    InUniverse(d, q);
    MarkAll(d, Universe(d, SetOf(q)), NOTHING, q).1
  }

  ghost function Marked(d: Depot, q: seq<Addr>): set<Addr>
  {
    InUniverse(d, q);
    MarkAll(d, Universe(d, SetOf(q)), NOTHING, q).0.s
  }

  /** What a collection from the roots q makes of a depot. */
  ghost predicate Collected(d: Depot, e: Depot, q: seq<Addr>, cutoff: int, mtimes: map<Digest, int>)
  {
    && CanMark(d, q)
    && e.pack == d.pack
    && e.loose == Swept(d.loose, Marked(d, q), cutoff, mtimes)
  }
}
