/** The order in which marking meets addresses, and what it therefore reads
    (cas-gc.c: mark_tree). */
module Tour {
  import opened Entries
  import opened Directory
  import opened Depots
  import opened Gc

  // ------------------------------------------------------------------
  // The order of a depot
  // ------------------------------------------------------------------

  /** An address met: as a root or a directory entry, or as a file entry. */
  datatype Met = Met(addr: Addr, dir: bool)

  /** Every directory a walk leads to, each read once, and all that is met on the
      way, in order.  What is met as a file is never mistaken for read. */
  ghost function Visit(d: Depot, all: set<Addr>, seen: set<Addr>, t: Addr): (r: (set<Addr>, seq<Met>))
    requires Closed(d, all) && t in all
    ensures seen <= r.0 && t in r.0
    decreases all - seen, 0
  {
    if t in seen then (seen, [Met(t, true)])
    else
      match Load(d, t)
      case Listing(dir) =>
        assert ListsOnly(dir, all);
        var r := VisitList(d, all, seen + {t}, dir);
        (r.0, [Met(t, true)] + r.1)
      case _ => (seen + {t}, [Met(t, true)])
  }

  ghost function VisitList(d: Depot, all: set<Addr>, seen: set<Addr>, dir: seq<Entry>): (r: (set<Addr>, seq<Met>))
    requires Closed(d, all) && ListsOnly(dir, all)
    ensures seen <= r.0
    decreases all - seen, 1, |dir|
  {
    if dir == [] then (seen, [])
    else if IsDirEntry(dir[0]) then
      var r := Visit(d, all, seen, dir[0].hash);
      var s := VisitList(d, all, r.0, dir[1..]);
      (s.0, r.1 + s.1)
    else
      var s := VisitList(d, all, seen, dir[1..]);
      (s.0, [Met(dir[0].hash, false)] + s.1)
  }

  ghost function VisitAll(d: Depot, all: set<Addr>, seen: set<Addr>, q: seq<Addr>): (r: (set<Addr>, seq<Met>))
    requires Closed(d, all) && forall t :: t in q ==> t in all
    ensures seen <= r.0
    decreases |q|
  {
    if q == [] then (seen, [])
    else
      var r := Visit(d, all, seen, q[0]);
      var s := VisitAll(d, all, r.0, q[1..]);
      (s.0, r.1 + s.1)
  }

  /** All that is met from the roots, in order. */
  ghost function Order(d: Depot, q: seq<Addr>): seq<Met>
  {
    InUniverse(d, q);
    VisitAll(d, Universe(d, SetOf(q)), {}, q).1
  }

  /** The first time a is met is as a file. */
  ghost predicate FileFirst(order: seq<Met>, a: Addr)
  {
    exists i :: 0 <= i < |order| && order[i] == Met(a, false) && forall j :: 0 <= j < i ==> order[j].addr != a
  }

  /** No directory that is also met as one is first met as a file. */
  ghost predicate ReadsAll(d: Depot, q: seq<Addr>)
  {
    forall a :: FileFirst(Order(d, q), a) && Met(a, true) in Order(d, q) ==> !Load(d, a).Listing?
  }

  // ------------------------------------------------------------------
  // Marks by meeting addresses one after another
  // ------------------------------------------------------------------

  function MeetOne(m: Marks, x: Met): Marks { if x.dir then m.(s := m.s + {x.addr}) else AddFile(m, x.addr) }

  ghost function Meet(m: Marks, order: seq<Met>): Marks
    decreases |order|
  {
    if order == [] then m else MeetOne(Meet(m, order[..|order| - 1]), order[|order| - 1])
  }

  lemma {:induction false} MeetAppend(m: Marks, a: seq<Met>, b: seq<Met>)
    ensures Meet(m, a + b) == Meet(Meet(m, a), b)
    decreases |b|
  {
    if b == [] {
      assert a + b == a;
    } else {
      MeetAppend(m, a, b[..|b| - 1]);
      assert (a + b)[..|a + b| - 1] == a + b[..|b| - 1];
    }
  }

  lemma {:induction false} MeetMarks(order: seq<Met>, a: Addr)
    ensures a in Meet(NOTHING, order).s <==> exists i :: 0 <= i < |order| && order[i].addr == a
    decreases |order|
  {
    if order != [] {
      var n := |order| - 1;
      var before := order[..n];
      MeetMarks(before, a);
      assert forall i :: 0 <= i < n ==> before[i] == order[i];
      assert order[n].addr in Meet(NOTHING, order).s;
    }
  }

  /** An address counts as a file exactly when it is met as one first. */
  lemma {:induction false} MeetFiles(order: seq<Met>, a: Addr)
    ensures a in Meet(NOTHING, order).files <==> FileFirst(order, a)
    decreases |order|
  {
    if order != [] {
      var n := |order| - 1;
      MeetFiles(order[..n], a);
      MeetMarks(order[..n], a);
      FileFirstStep(order, a);
    }
  }

  lemma FileFirstStep(order: seq<Met>, a: Addr)
    requires order != []
    ensures var n := |order| - 1;
            FileFirst(order, a)
            <==> FileFirst(order[..n], a)
                 || (order[n] == Met(a, false) && !exists i :: 0 <= i < n && order[..n][i].addr == a)
  {
    var n := |order| - 1;
    var before := order[..n];
    assert forall i :: 0 <= i < n ==> before[i] == order[i];
  }

  /** The i-th address met is a directory that was taken for a file before. */
  ghost predicate ClashAt(d: Depot, m: Marks, order: seq<Met>, i: nat)
    requires i < |order|
  {
    order[i].dir && Load(d, order[i].addr).Listing? && order[i].addr in Meet(m, order[..i]).files
  }

  ghost predicate ClashFree(d: Depot, m: Marks, order: seq<Met>)
  {
    forall i :: 0 <= i < |order| ==> !ClashAt(d, m, order, i)
  }

  lemma ClashSplits(d: Depot, m: Marks, a: seq<Met>, b: seq<Met>, i: nat)
    requires i < |a| + |b|
    ensures ClashAt(d, m, a + b, i) <==> if i < |a| then ClashAt(d, m, a, i) else ClashAt(d, Meet(m, a), b, i - |a|)
  {
    hide Load, Meet;
    if i < |a| {
      assert (a + b)[..i] == a[..i];
    } else {
      assert (a + b)[..i] == a + b[..i - |a|];
      MeetAppend(m, a, b[..i - |a|]);
    }
  }

  lemma ClashFreeSplits(d: Depot, m: Marks, a: seq<Met>, b: seq<Met>)
    ensures ClashFree(d, m, a + b) <==> ClashFree(d, m, a) && ClashFree(d, Meet(m, a), b)
  {
    hide ClashAt, Meet;
    forall i | 0 <= i < |a + b|
      ensures ClashAt(d, m, a + b, i) <==> if i < |a| then ClashAt(d, m, a, i) else ClashAt(d, Meet(m, a), b, i - |a|)
    {
      ClashSplits(d, m, a, b, i);
    }
    if ClashFree(d, m, a + b) {
      forall i | 0 <= i < |a|
        ensures !ClashAt(d, m, a, i)
      {
        assert !ClashAt(d, m, a + b, i);
      }
      forall i | 0 <= i < |b|
        ensures !ClashAt(d, Meet(m, a), b, i)
      {
        assert !ClashAt(d, m, a + b, |a| + i);
      }
    }
  }

  // ------------------------------------------------------------------
  // Marking keeps step until something clashes
  // ------------------------------------------------------------------

  /** What is marked has been visited, or was taken for a file and is not a
      directory visited meanwhile. */
  ghost predicate InStep(d: Depot, m: Marks, seen: set<Addr>)
  {
    && seen <= m.s && (forall a :: a in m.s ==> a in seen || a in m.files)
    && forall a :: a in m.files && a in seen ==> !Load(d, a).Listing?
  }

  lemma OneMeeting(d: Depot, m: Marks, t: Addr)
    ensures Meet(m, [Met(t, true)]) == m.(s := m.s + {t})
    ensures Meet(m, [Met(t, false)]) == AddFile(m, t)
    ensures ClashFree(d, m, [Met(t, true)]) <==> !(Load(d, t).Listing? && t in m.files)
    ensures ClashFree(d, m, [Met(t, false)])
  {
    hide Load;
    var one, other := [Met(t, true)], [Met(t, false)];
    assert one[..0] == [] && other[..0] == [];
    assert ClashAt(d, m, one, 0) <==> Load(d, t).Listing? && t in m.files;
  }

  lemma {:induction false} KeepsStep(d: Depot, all: set<Addr>, m: Marks, seen: set<Addr>, t: Addr)
    requires Closed(d, all) && t in all && InStep(d, m, seen)
    requires Mark(d, all, m, t).1 && ClashFree(d, m, Visit(d, all, seen, t).1)
    ensures Mark(d, all, m, t).0 == Meet(m, Visit(d, all, seen, t).1)
    ensures InStep(d, Mark(d, all, m, t).0, Visit(d, all, seen, t).0)
    decreases all - m.s, 0
  {
    hide Load, Meet, ClashFree;
    OneMeeting(d, m, t);
    if t in m.s {
      assert m.s + {t} == m.s;
      if t !in seen && Load(d, t).Listing? {
        var rest := VisitList(d, all, seen + {t}, Load(d, t).dir).1;
        ClashFreeSplits(d, m, [Met(t, true)], rest);
      }
    } else if Load(d, t).Listing? {
      var m1, dir := m.(s := m.s + {t}), Load(d, t).dir;
      assert ListsOnly(dir, all);
      var rest := VisitList(d, all, seen + {t}, dir).1;
      ClashFreeSplits(d, m, [Met(t, true)], rest);
      MeetAppend(m, [Met(t, true)], rest);
      ListKeepsStep(d, all, m1, seen + {t}, dir);
    }
  }

  lemma {:induction false} ListKeepsStep(d: Depot, all: set<Addr>, m: Marks, seen: set<Addr>, dir: seq<Entry>)
    requires Closed(d, all) && ListsOnly(dir, all) && InStep(d, m, seen)
    requires MarkList(d, all, m, dir).1 && ClashFree(d, m, VisitList(d, all, seen, dir).1)
    ensures MarkList(d, all, m, dir).0 == Meet(m, VisitList(d, all, seen, dir).1)
    ensures InStep(d, MarkList(d, all, m, dir).0, VisitList(d, all, seen, dir).0)
    decreases all - m.s, 1, |dir|
  {
    hide Load, ClashFree, Mark, Visit, Closed;
    if dir != [] {
      var t, rest := dir[0].hash, dir[1..];
      if IsDirEntry(dir[0]) {
        var r := Visit(d, all, seen, t);
        var s := VisitList(d, all, r.0, rest);
        ClashFreeSplits(d, m, r.1, s.1);
        MeetAppend(m, r.1, s.1);
        hide Meet, InStep;
        KeepsStep(d, all, m, seen, t);
        ListKeepsStep(d, all, Mark(d, all, m, t).0, r.0, rest);
      } else {
        var s := VisitList(d, all, seen, rest);
        OneMeeting(d, m, t);
        ClashFreeSplits(d, m, [Met(t, false)], s.1);
        MeetAppend(m, [Met(t, false)], s.1);
        hide Meet;
        ListKeepsStep(d, all, AddFile(m, t), seen, rest);
      }
    }
  }

  lemma {:induction false} AllKeepStep(d: Depot, all: set<Addr>, m: Marks, seen: set<Addr>, q: seq<Addr>)
    requires Closed(d, all) && (forall t :: t in q ==> t in all) && InStep(d, m, seen)
    requires MarkAll(d, all, m, q).1 && ClashFree(d, m, VisitAll(d, all, seen, q).1)
    ensures MarkAll(d, all, m, q).0 == Meet(m, VisitAll(d, all, seen, q).1)
    ensures InStep(d, MarkAll(d, all, m, q).0, VisitAll(d, all, seen, q).0)
    decreases |q|
  {
    hide Load, ClashFree, Mark, Visit, Closed;
    if q != [] {
      var r := Visit(d, all, seen, q[0]);
      var s := VisitAll(d, all, r.0, q[1..]);
      ClashFreeSplits(d, m, r.1, s.1);
      MeetAppend(m, r.1, s.1);
      hide Meet, InStep;
      KeepsStep(d, all, m, seen, q[0]);
      AllKeepStep(d, all, Mark(d, all, m, q[0]).0, r.0, q[1..]);
    }
  }

  // ------------------------------------------------------------------
  // The first clash
  // ------------------------------------------------------------------

  /** The first clash is at i. */
  ghost predicate FirstClash(d: Depot, m: Marks, order: seq<Met>, i: nat)
  {
    i < |order| && ClashAt(d, m, order, i) && forall j :: 0 <= j < i ==> !ClashAt(d, m, order, j)
  }

  lemma FirstClashSplits(d: Depot, m: Marks, a: seq<Met>, b: seq<Met>, i: nat)
    requires FirstClash(d, m, a + b, i)
    ensures i < |a| ==> FirstClash(d, m, a, i)
    ensures i >= |a| ==> ClashFree(d, m, a) && FirstClash(d, Meet(m, a), b, i - |a|)
  {
    hide ClashAt, Meet;
    forall j | 0 <= j <= i
      ensures ClashAt(d, m, a + b, j) <==> if j < |a| then ClashAt(d, m, a, j) else ClashAt(d, Meet(m, a), b, j - |a|)
    {
      ClashSplits(d, m, a, b, j);
    }
    forall j | 0 <= j < i && j < |a|
      ensures !ClashAt(d, m, a, j)
    {
      assert !ClashAt(d, m, a + b, j);
    }
    if i >= |a| {
      forall j | 0 <= j < i - |a|
        ensures !ClashAt(d, Meet(m, a), b, j)
      {
        assert !ClashAt(d, m, a + b, |a| + j);
      }
    }
  }

  lemma OneClash(d: Depot, m: Marks, t: Addr, dir: bool, i: nat)
    requires FirstClash(d, m, [Met(t, dir)], i)
    ensures i == 0 && dir && t in m.files && Load(d, t).Listing?
  {
    hide Load;
    assert [Met(t, dir)][..0] == [];
  }

  /** Files stay files. */
  lemma {:induction false} FilesGrow(d: Depot, all: set<Addr>, m: Marks, t: Addr)
    requires Closed(d, all) && t in all
    ensures m.files <= Mark(d, all, m, t).0.files
    ensures forall x :: x in Mark(d, all, m, t).0.files && x in m.s ==> x in m.files
    decreases all - m.s, 0
  {
    hide Load;
    if t !in m.s && Load(d, t).Listing? {
      assert ListsOnly(Load(d, t).dir, all);
      ListFilesGrow(d, all, m.(s := m.s + {t}), Load(d, t).dir);
    }
  }

  lemma {:induction false} ListFilesGrow(d: Depot, all: set<Addr>, m: Marks, dir: seq<Entry>)
    requires Closed(d, all) && ListsOnly(dir, all)
    ensures m.files <= MarkList(d, all, m, dir).0.files
    ensures forall x :: x in MarkList(d, all, m, dir).0.files && x in m.s ==> x in m.files
    decreases all - m.s, 1, |dir|
  {
    hide Load, Mark, Closed;
    if dir != [] {
      if IsDirEntry(dir[0]) {
        FilesGrow(d, all, m, dir[0].hash);
        if Mark(d, all, m, dir[0].hash).1 {
          ListFilesGrow(d, all, Mark(d, all, m, dir[0].hash).0, dir[1..]);
        }
      } else {
        ListFilesGrow(d, all, AddFile(m, dir[0].hash), dir[1..]);
      }
    }
  }

  lemma {:induction false} AllFilesGrow(d: Depot, all: set<Addr>, m: Marks, q: seq<Addr>)
    requires Closed(d, all) && forall t :: t in q ==> t in all
    ensures m.files <= MarkAll(d, all, m, q).0.files
    ensures forall x :: x in MarkAll(d, all, m, q).0.files && x in m.s ==> x in m.files
    decreases |q|
  {
    hide Mark, Closed;
    if q != [] {
      FilesGrow(d, all, m, q[0]);
      if Mark(d, all, m, q[0]).1 {
        AllFilesGrow(d, all, Mark(d, all, m, q[0]).0, q[1..]);
      }
    }
  }

  /** The first directory to clash is one that marking leaves unread. */
  lemma {:induction false} ClashIsSkipped(d: Depot, all: set<Addr>, m: Marks, seen: set<Addr>, t: Addr, i: nat)
    requires Closed(d, all) && t in all && InStep(d, m, seen)
    requires Mark(d, all, m, t).1 && FirstClash(d, m, Visit(d, all, seen, t).1, i)
    ensures Visit(d, all, seen, t).1[i].addr in Mark(d, all, m, t).0.files
    decreases all - m.s, 0
  {
    hide Load, Meet, ClashAt, FirstClash;
    OneMeeting(d, m, t);
    if t in seen || !Load(d, t).Listing? {
      OneClash(d, m, t, true, i);
      FilesGrow(d, all, m, t);
    } else {
      var m1, dir := m.(s := m.s + {t}), Load(d, t).dir;
      assert ListsOnly(dir, all);
      var rest := VisitList(d, all, seen + {t}, dir).1;
      FirstClashSplits(d, m, [Met(t, true)], rest, i);
      if i < 1 {
        OneClash(d, m, t, true, i);
        FilesGrow(d, all, m, t);
      } else {
        ListClashIsSkipped(d, all, m1, seen + {t}, dir, i - 1);
      }
    }
  }

  lemma {:induction false} ListClashIsSkipped(d: Depot, all: set<Addr>, m: Marks, seen: set<Addr>, dir: seq<Entry>, i: nat)
    requires Closed(d, all) && ListsOnly(dir, all) && InStep(d, m, seen)
    requires MarkList(d, all, m, dir).1 && FirstClash(d, m, VisitList(d, all, seen, dir).1, i)
    ensures VisitList(d, all, seen, dir).1[i].addr in MarkList(d, all, m, dir).0.files
    decreases all - m.s, 1, |dir|
  {
    hide Load, Mark, Visit, Closed, FirstClash;
    FirstClashInside(d, m, VisitList(d, all, seen, dir).1, i);
    if dir != [] {
      var t, rest := dir[0].hash, dir[1..];
      if IsDirEntry(dir[0]) {
        var r := Visit(d, all, seen, t);
        var s := VisitList(d, all, r.0, rest);
        FirstClashSplits(d, m, r.1, s.1, i);
        hide Meet, InStep, ClashFree;
        var m1 := Mark(d, all, m, t).0;
        if i < |r.1| {
          ClashIsSkipped(d, all, m, seen, t, i);
          ListFilesGrow(d, all, m1, rest);
        } else {
          KeepsStep(d, all, m, seen, t);
          ListClashIsSkipped(d, all, m1, r.0, rest, i - |r.1|);
        }
      } else {
        var s := VisitList(d, all, seen, rest);
        OneMeeting(d, m, t);
        FirstClashSplits(d, m, [Met(t, false)], s.1, i);
        hide Meet;
        if i < 1 {
          OneClash(d, m, t, false, i);
        } else {
          ListClashIsSkipped(d, all, AddFile(m, t), seen, rest, i - 1);
        }
      }
    }
  }

  lemma FirstClashInside(d: Depot, m: Marks, order: seq<Met>, i: nat)
    requires FirstClash(d, m, order, i)
    ensures i < |order|
  {
    hide ClashAt;
  }

  lemma {:induction false} AllClashIsSkipped(d: Depot, all: set<Addr>, m: Marks, seen: set<Addr>, q: seq<Addr>, i: nat)
    requires Closed(d, all) && (forall t :: t in q ==> t in all) && InStep(d, m, seen)
    requires MarkAll(d, all, m, q).1 && FirstClash(d, m, VisitAll(d, all, seen, q).1, i)
    ensures VisitAll(d, all, seen, q).1[i].addr in MarkAll(d, all, m, q).0.files
    decreases |q|
  {
    hide Load, Mark, Visit, Closed, FirstClash;
    FirstClashInside(d, m, VisitAll(d, all, seen, q).1, i);
    if q != [] {
      var r := Visit(d, all, seen, q[0]);
      var s := VisitAll(d, all, r.0, q[1..]);
      FirstClashSplits(d, m, r.1, s.1, i);
      hide Meet, InStep, ClashFree;
      var m1 := Mark(d, all, m, q[0]).0;
      if i < |r.1| {
        ClashIsSkipped(d, all, m, seen, q[0], i);
        AllFilesGrow(d, all, m1, q[1..]);
      } else {
        KeepsStep(d, all, m, seen, q[0]);
        AllClashIsSkipped(d, all, m1, r.0, q[1..], i - |r.1|);
      }
    }
  }

  // ------------------------------------------------------------------
  // The order meets exactly what can be reached
  // ------------------------------------------------------------------

  /** What a visit adds: all of it met, closed under subdirectories, and nothing
      met that the roots do not lead to. */
  ghost predicate Visits(d: Depot, roots: set<Addr>, seen: set<Addr>, after: set<Addr>, order: seq<Met>)
  {
    && (forall x :: x in after - seen ==> Met(x, true) in order)
    && (forall u, x :: u in after - seen && HasChild(d, u, x, true) ==> x in after)
    && (forall x :: x in order && x.dir ==> ReachesDir(d, roots, x.addr))
    && (forall x :: x in order && !x.dir ==> FileChild(d, roots, x.addr))
  }

  lemma VisitsJoin(d: Depot, roots: set<Addr>, a: set<Addr>, b: set<Addr>, c: set<Addr>, x: seq<Met>, y: seq<Met>)
    requires Visits(d, roots, a, b, x) && Visits(d, roots, b, c, y) && b <= c
    ensures Visits(d, roots, a, c, x + y)
  {
    hide HasChild, ReachesDir, FileChild;
  }

  lemma {:induction false} VisitReaches(d: Depot, all: set<Addr>, roots: set<Addr>, seen: set<Addr>, t: Addr)
    requires Closed(d, all) && t in all && ReachesDir(d, roots, t)
    ensures var r := Visit(d, all, seen, t); Visits(d, roots, seen, r.0, r.1)
    decreases all - seen, 0
  {
    hide Load, ReachesDir, FileChild, Visits;
    if t in seen {
      MetAgain(d, roots, seen, t);
    } else if Load(d, t).Listing? {
      var dir := Load(d, t).dir;
      assert ListsOnly(dir, all);
      assert dir[0..] == dir;
      VisitListReaches(d, all, roots, seen + {t}, t, dir, 0);
      var r := VisitList(d, all, seen + {t}, dir);
      VisitsListing(d, roots, seen, t, r.0, r.1);
    } else {
      VisitsLeaf(d, roots, seen, t);
    }
  }

  lemma MetAgain(d: Depot, roots: set<Addr>, seen: set<Addr>, t: Addr)
    requires ReachesDir(d, roots, t)
    ensures Visits(d, roots, seen, seen, [Met(t, true)])
  {
    hide HasChild, ReachesDir, FileChild;
  }

  lemma VisitsLeaf(d: Depot, roots: set<Addr>, seen: set<Addr>, t: Addr)
    requires ReachesDir(d, roots, t) && !Load(d, t).Listing?
    ensures Visits(d, roots, seen, seen + {t}, [Met(t, true)])
  {
    hide Load, ReachesDir, FileChild;
    assert [Met(t, true)][0] == Met(t, true);
  }

  lemma VisitsListing(d: Depot, roots: set<Addr>, seen: set<Addr>, t: Addr, after: set<Addr>, order: seq<Met>)
    requires Visits(d, roots, seen + {t}, after, order) && seen + {t} <= after && ReachesDir(d, roots, t) && Load(d, t).Listing?
    requires forall e :: e in Load(d, t).dir && IsDirEntry(e) ==> e.hash in after
    ensures Visits(d, roots, seen, after, [Met(t, true)] + order)
  {
    hide Load, ReachesDir, FileChild, IsDirEntry;
    assert ([Met(t, true)] + order)[0] == Met(t, true);
  }

  lemma {:induction false} VisitListReaches(d: Depot, all: set<Addr>, roots: set<Addr>, seen: set<Addr>, t: Addr,
        dir: seq<Entry>, i: nat)
    requires Closed(d, all) && ReachesDir(d, roots, t) && Load(d, t) == Listing(dir) && i <= |dir| && ListsOnly(dir[i..], all)
    ensures var r := VisitList(d, all, seen, dir[i..]);
            && Visits(d, roots, seen, r.0, r.1)
            && forall k :: i <= k < |dir| && IsDirEntry(dir[k]) ==> dir[k].hash in r.0
    decreases all - seen, 1, |dir| - i
  {
    hide Load, ReachesDir, FileChild, Closed, Visit, HasChild, IsDirEntry;
    if i < |dir| {
      var e := dir[i];
      assert dir[i..][1..] == dir[i + 1..];
      EntryIsChild(d, t, dir, i);
      if IsDirEntry(e) {
        ChildReaches(d, roots, t, e.hash);
        VisitReaches(d, all, roots, seen, e.hash);
        var r := Visit(d, all, seen, e.hash);
        VisitListReaches(d, all, roots, r.0, t, dir, i + 1);
        var s := VisitList(d, all, r.0, dir[i + 1..]);
        VisitsJoin(d, roots, seen, r.0, s.0, r.1, s.1);
      } else {
        FileReaches(d, roots, t, e.hash);
        VisitListReaches(d, all, roots, seen, t, dir, i + 1);
        var s := VisitList(d, all, seen, dir[i + 1..]);
        VisitsFile(d, roots, seen, e.hash);
        VisitsJoin(d, roots, seen, seen, s.0, [Met(e.hash, false)], s.1);
      }
    }
  }

  lemma VisitsFile(d: Depot, roots: set<Addr>, seen: set<Addr>, t: Addr)
    requires FileChild(d, roots, t)
    ensures Visits(d, roots, seen, seen, [Met(t, false)])
  {
    hide HasChild, ReachesDir, FileChild;
  }

  lemma {:induction false} VisitAllReaches(d: Depot, all: set<Addr>, roots: set<Addr>, seen: set<Addr>, q: seq<Addr>)
    requires Closed(d, all) && SetOf(q) <= roots && forall t :: t in q ==> t in all
    ensures var r := VisitAll(d, all, seen, q);
            Visits(d, roots, seen, r.0, r.1) && forall t :: t in q ==> t in r.0
    decreases |q|
  {
    hide Closed, Visit, ReachesDir, FileChild, HasChild;
    if q != [] {
      assert q[0] in SetOf(q);
      assert forall t :: t in q[1..] ==> t in q;
      assert forall t :: t in q[1..] ==> t in SetOf(q);
      RootReaches(d, roots, q[0]);
      VisitReaches(d, all, roots, seen, q[0]);
      var r := Visit(d, all, seen, q[0]);
      VisitAllReaches(d, all, roots, r.0, q[1..]);
      var s := VisitAll(d, all, r.0, q[1..]);
      hide Visits;
      VisitsJoin(d, roots, seen, r.0, s.0, r.1, s.1);
      assert forall t :: t in q ==> t == q[0] || t in q[1..];
    }
  }

  lemma {:induction false} PathIsVisited(d: Depot, roots: set<Addr>, after: set<Addr>, order: seq<Met>, p: seq<Addr>, i: nat)
    requires Visits(d, roots, {}, after, order) && roots <= after
    requires DirPath(d, p) && p[0] in roots && i < |p|
    ensures p[i] in after
    decreases i
  {
    hide HasChild, ReachesDir, FileChild;
    if i > 0 {
      PathIsVisited(d, roots, after, order, p, i - 1);
      assert p[i - 1] in after - {};
      assert HasChild(d, p[i - 1], p[i], true);
    }
  }

  /** What is met as a directory is exactly what can be walked to, and what is met
      as a file is named as one on the way. */
  lemma OrderReaches(d: Depot, q: seq<Addr>, t: Addr)
    ensures Met(t, true) in Order(d, q) <==> ReachesDir(d, SetOf(q), t)
    ensures Met(t, false) in Order(d, q) ==> FileChild(d, SetOf(q), t)
  {
    hide Closed, VisitAll, FileChild, HasChild, Visits;
    InUniverse(d, q);
    var all, roots := Universe(d, SetOf(q)), SetOf(q);
    VisitAllReaches(d, all, roots, {}, q);
    var r := VisitAll(d, all, {}, q);
    VisitsMeets(d, roots, r.0, r.1, t);
    if ReachesDir(d, roots, t) {
      var p :| DirPath(d, p) && p[0] in roots && p[|p| - 1] == t;
      PathIsVisited(d, roots, r.0, r.1, p, |p| - 1);
    }
  }

  lemma VisitsMeets(d: Depot, roots: set<Addr>, after: set<Addr>, order: seq<Met>, t: Addr)
    requires Visits(d, roots, {}, after, order)
    ensures t in after ==> Met(t, true) in order
    ensures Met(t, true) in order ==> ReachesDir(d, roots, t)
    ensures Met(t, false) in order ==> FileChild(d, roots, t)
  {
    hide HasChild, ReachesDir, FileChild;
    if t in after {
      assert t in after - {};
    }
  }

  // ------------------------------------------------------------------
  // When every directory is read
  // ------------------------------------------------------------------

  ghost function MarksOf(d: Depot, q: seq<Addr>): Marks
  {
    InUniverse(d, q);
    MarkAll(d, Universe(d, SetOf(q)), NOTHING, q).0
  }

  /** A directory met at i that was met as a file before anything else. */
  ghost predicate UnreadAt(d: Depot, order: seq<Met>, i: nat)
    requires i < |order|
  {
    order[i].dir && Load(d, order[i].addr).Listing? && FileFirst(order, order[i].addr)
  }

  lemma UnreadIsClash(d: Depot, order: seq<Met>, i: nat)
    requires i < |order|
    ensures UnreadAt(d, order, i) <==> ClashAt(d, NOTHING, order, i)
  {
    hide Load, Meet;
    var a := order[i].addr;
    MeetFiles(order[..i], a);
    if order[i].dir && FileFirst(order, a) {
      var k :| 0 <= k < |order| && order[k] == Met(a, false) && forall j :: 0 <= j < k ==> order[j].addr != a;
      assert k < i;
      assert order[..i][k] == Met(a, false) && forall j :: 0 <= j < k ==> order[..i][j] == order[j];
    }
    if FileFirst(order[..i], a) {
      var k :| 0 <= k < i && order[..i][k] == Met(a, false) && forall j :: 0 <= j < k ==> order[..i][j].addr != a;
      assert order[k] == Met(a, false) && forall j :: 0 <= j < k ==> order[j] == order[..i][j];
    }
  }

  /** The first such directory. */
  ghost predicate FirstUnread(d: Depot, order: seq<Met>, i: nat)
  {
    i < |order| && UnreadAt(d, order, i) && forall j :: 0 <= j < i ==> !UnreadAt(d, order, j)
  }

  lemma FirstUnreadIsFirstClash(d: Depot, order: seq<Met>, i: nat)
    requires FirstUnread(d, order, i)
    ensures FirstClash(d, NOTHING, order, i)
  {
    hide UnreadAt, ClashAt;
    forall j | 0 <= j <= i
      ensures UnreadAt(d, order, j) <==> ClashAt(d, NOTHING, order, j)
    {
      UnreadIsClash(d, order, j);
    }
  }

  lemma {:induction false} LeastUnread(d: Depot, order: seq<Met>, n: nat) returns (i: nat)
    requires n < |order| && UnreadAt(d, order, n)
    ensures FirstUnread(d, order, i)
    decreases n
  {
    hide UnreadAt;
    if k :| 0 <= k < n && UnreadAt(d, order, k) {
      i := LeastUnread(d, order, k);
    } else {
      i := n;
    }
  }

  /** The first directory met as a file before is never read. */
  lemma FirstUnreadIsFile(d: Depot, q: seq<Addr>, i: nat)
    requires CanMark(d, q) && FirstUnread(d, Order(d, q), i)
    ensures i < |Order(d, q)| && Order(d, q)[i].addr in MarksOf(d, q).files
  {
    hide VisitAll, MarkAll, Closed, FirstUnread, FirstClash;
    InUniverse(d, q);
    FirstUnreadIsFirstClash(d, Order(d, q), i);
    StepsFromNothing(d);
    FirstClashInside(d, NOTHING, Order(d, q), i);
    AllClashIsSkipped(d, Universe(d, SetOf(q)), NOTHING, {}, q, i);
  }

  lemma StepsFromNothing(d: Depot)
    ensures InStep(d, NOTHING, {})
  {
  }

  lemma NoneUnread(d: Depot, q: seq<Addr>)
    ensures ReadsAll(d, q) <==> forall i :: 0 <= i < |Order(d, q)| ==> !UnreadAt(d, Order(d, q), i)
  {
    hide Load, Order, FileFirst;
    var order := Order(d, q);
    if forall i :: 0 <= i < |order| ==> !UnreadAt(d, order, i) {
      forall a | FileFirst(order, a) && Met(a, true) in order
        ensures !Load(d, a).Listing?
      {
        var i :| 0 <= i < |order| && order[i] == Met(a, true);
        assert !UnreadAt(d, order, i);
      }
    }
    forall i | 0 <= i < |order| && UnreadAt(d, order, i)
      ensures !ReadsAll(d, q)
    {
      assert order[i] == Met(order[i].addr, true);
    }
  }

  /** Marking reads every directory that can be walked to exactly when none of
      them is met as a file before it is met as a directory: a condition on the
      depot and the order of its entries alone. */
  lemma ReadsAllIff(d: Depot, q: seq<Addr>)
    requires CanMark(d, q)
    ensures ReadsAll(d, q)
            <==> forall t :: ReachesDir(d, SetOf(q), t) && Load(d, t).Listing? ==> t !in MarksOf(d, q).files
  {
    hide VisitAll, MarkAll, Closed, ReachesDir, Load, FileFirst, Order, MarksOf, UnreadAt, ReadsAll, CanMark;
    NoneUnread(d, q);
    var order := Order(d, q);
    if ReadsAll(d, q) {
      NothingClashes(d, order);
      MarksAreMeetings(d, q);
      forall t | ReachesDir(d, SetOf(q), t) && Load(d, t).Listing?
        ensures t !in MarksOf(d, q).files
      {
        OrderReaches(d, q, t);
        MeetFiles(order, t);
        ReadsAllMeans(d, q, t);
      }
    } else {
      var n :| 0 <= n < |order| && UnreadAt(d, order, n);
      var i := LeastUnread(d, order, n);
      FirstUnreadIsFile(d, q, i);
      UnreadIsReached(d, q, i);
    }
  }

  lemma NothingClashes(d: Depot, order: seq<Met>)
    requires forall i :: 0 <= i < |order| ==> !UnreadAt(d, order, i)
    ensures ClashFree(d, NOTHING, order)
  {
    hide UnreadAt, ClashAt;
    forall i | 0 <= i < |order|
      ensures !ClashAt(d, NOTHING, order, i)
    {
      UnreadIsClash(d, order, i);
    }
  }

  lemma MarksAreMeetings(d: Depot, q: seq<Addr>)
    requires CanMark(d, q) && ClashFree(d, NOTHING, Order(d, q))
    ensures MarksOf(d, q) == Meet(NOTHING, Order(d, q))
  {
    hide VisitAll, MarkAll, Closed, ClashFree, Meet;
    InUniverse(d, q);
    StepsFromNothing(d);
    AllKeepStep(d, Universe(d, SetOf(q)), NOTHING, {}, q);
  }

  lemma ReadsAllMeans(d: Depot, q: seq<Addr>, t: Addr)
    requires ReadsAll(d, q) && Met(t, true) in Order(d, q) && Load(d, t).Listing?
    ensures !FileFirst(Order(d, q), t)
  {
    hide Order, FileFirst, Load;
  }

  lemma UnreadIsReached(d: Depot, q: seq<Addr>, i: nat)
    requires FirstUnread(d, Order(d, q), i)
    ensures i < |Order(d, q)| && ReachesDir(d, SetOf(q), Order(d, q)[i].addr) && Load(d, Order(d, q)[i].addr).Listing?
  {
    hide Order, FileFirst, Load, ReachesDir;
    var x := Order(d, q)[i];
    assert x in Order(d, q) && x == Met(x.addr, true);
    OrderReaches(d, q, x.addr);
  }

  /** Then everything reachable is marked. */
  lemma ReadsAllMarks(d: Depot, q: seq<Addr>)
    requires CanMark(d, q) && ReadsAll(d, q)
    ensures forall t :: t in Marked(d, q) <==> Reachable(d, SetOf(q), t)
  {
    hide MarkAll, Closed, ReachesDir, Load, ReadsAll, Reachable, Walked;
    InUniverse(d, q);
    ReadsAllIff(d, q);
    MarkedIsReachable(d, Universe(d, SetOf(q)), q);
  }

  /** In particular where no directory is named as a file at all. */
  lemma NoDualUseReadsAll(d: Depot, q: seq<Addr>)
    requires NoDualUse(d, SetOf(q))
    ensures ReadsAll(d, q)
  {
    hide Order, ReachesDir, FileChild, Load;
    forall a | FileFirst(Order(d, q), a) && Met(a, true) in Order(d, q)
      ensures !Load(d, a).Listing?
    {
      OrderReaches(d, q, a);
      assert Met(a, false) in Order(d, q);
    }
  }

  // ------------------------------------------------------------------
  // What exactly is marked
  // ------------------------------------------------------------------

  /** A path that leads on through none of these addresses. */
  ghost predicate PathAround(d: Depot, avoid: set<Addr>, p: seq<Addr>)
  {
    DirPath(d, p) && forall i :: 0 <= i < |p| - 1 ==> p[i] !in avoid
  }

  ghost predicate ReachesAround(d: Depot, roots: set<Addr>, avoid: set<Addr>, t: Addr)
  {
    exists p :: |p| > 0 && PathAround(d, avoid, p) && p[0] in roots && p[|p| - 1] == t
  }

  ghost predicate ReachableAround(d: Depot, roots: set<Addr>, avoid: set<Addr>, t: Addr)
  {
    ReachesAround(d, roots, avoid, t)
    || exists u :: u !in avoid && ReachesAround(d, roots, avoid, u) && HasChild(d, u, t, false)
  }

  lemma RootReachesAround(d: Depot, roots: set<Addr>, avoid: set<Addr>, t: Addr)
    requires t in roots
    ensures ReachesAround(d, roots, avoid, t)
  {
    assert DirPath(d, [t]);
    assert PathAround(d, avoid, [t]);
  }

  lemma ChildReachesAround(d: Depot, roots: set<Addr>, avoid: set<Addr>, u: Addr, t: Addr)
    requires ReachesAround(d, roots, avoid, u) && u !in avoid && HasChild(d, u, t, true)
    ensures ReachesAround(d, roots, avoid, t)
  {
    hide HasChild;
    var p :| |p| > 0 && PathAround(d, avoid, p) && p[0] in roots && p[|p| - 1] == u;
    assert DirPath(d, p + [t]);
    assert PathAround(d, avoid, p + [t]);
    assert (p + [t])[|p|] == t;
  }

  lemma {:induction false} MarksAround(d: Depot, all: set<Addr>, roots: set<Addr>, m: Marks, t: Addr, avoid: set<Addr>)
    requires Closed(d, all) && t in all && ReachesAround(d, roots, avoid, t) && m.files <= m.s
    requires forall x :: x in avoid && x in Mark(d, all, m, t).0.s ==> x in Mark(d, all, m, t).0.files
    ensures forall x :: x in Mark(d, all, m, t).0.s - m.s ==> ReachableAround(d, roots, avoid, x)
    ensures Mark(d, all, m, t).0.files <= Mark(d, all, m, t).0.s
    decreases all - m.s, 0
  {
    hide Load, ReachesAround;
    if t !in m.s && Load(d, t).Listing? {
      var m1, dir := m.(s := m.s + {t}), Load(d, t).dir;
      assert ListsOnly(dir, all);
      ListFilesGrow(d, all, m1, dir);
      assert t !in avoid;
      assert dir[0..] == dir;
      ListMarksAround(d, all, roots, m1, t, dir, 0, avoid);
    }
  }

  lemma {:induction false} ListMarksAround(d: Depot, all: set<Addr>, roots: set<Addr>, m: Marks, t: Addr,
        dir: seq<Entry>, i: nat, avoid: set<Addr>)
    requires Closed(d, all) && Load(d, t) == Listing(dir) && i <= |dir| && ListsOnly(dir[i..], all)
    requires ReachesAround(d, roots, avoid, t) && t !in avoid && m.files <= m.s
    requires forall x :: x in avoid && x in MarkList(d, all, m, dir[i..]).0.s ==> x in MarkList(d, all, m, dir[i..]).0.files
    ensures forall x :: x in MarkList(d, all, m, dir[i..]).0.s - m.s ==> ReachableAround(d, roots, avoid, x)
    ensures MarkList(d, all, m, dir[i..]).0.files <= MarkList(d, all, m, dir[i..]).0.s
    decreases all - m.s, 1, |dir| - i
  {
    hide Load, ReachesAround, Closed, Mark, HasChild, IsDirEntry;
    if i < |dir| {
      var e := dir[i];
      assert dir[i..][1..] == dir[i + 1..];
      EntryIsChild(d, t, dir, i);
      if IsDirEntry(e) {
        var r := Mark(d, all, m, e.hash);
        ChildReachesAround(d, roots, avoid, t, e.hash);
        if r.1 {
          ListFilesGrow(d, all, r.0, dir[i + 1..]);
          MarksAround(d, all, roots, m, e.hash, avoid);
          ListMarksAround(d, all, roots, r.0, t, dir, i + 1, avoid);
        } else {
          MarksAround(d, all, roots, m, e.hash, avoid);
        }
      } else {
        assert ReachableAround(d, roots, avoid, e.hash);
        ListMarksAround(d, all, roots, AddFile(m, e.hash), t, dir, i + 1, avoid);
      }
    }
  }

  lemma {:induction false} AllMarksAround(d: Depot, all: set<Addr>, roots: set<Addr>, m: Marks, q: seq<Addr>, avoid: set<Addr>)
    requires Closed(d, all) && SetOf(q) <= roots && (forall t :: t in q ==> t in all) && m.files <= m.s
    requires forall x :: x in avoid && x in MarkAll(d, all, m, q).0.s ==> x in MarkAll(d, all, m, q).0.files
    ensures forall x :: x in MarkAll(d, all, m, q).0.s - m.s ==> ReachableAround(d, roots, avoid, x)
    decreases |q|
  {
    hide Closed, Mark, ReachableAround;
    if q != [] {
      assert q[0] in SetOf(q);
      assert forall t :: t in q[1..] ==> t in SetOf(q);
      RootReachesAround(d, roots, avoid, q[0]);
      var r := Mark(d, all, m, q[0]);
      if r.1 {
        AllFilesGrow(d, all, r.0, q[1..]);
        MarksAround(d, all, roots, m, q[0], avoid);
        AllMarksAround(d, all, roots, r.0, q[1..], avoid);
      } else {
        MarksAround(d, all, roots, m, q[0], avoid);
      }
    }
  }

  lemma {:induction false} PathAroundIsMarked(d: Depot, roots: set<Addr>, r: Marks, p: seq<Addr>, i: nat)
    requires Adds(d, roots, NOTHING, r, true) && roots <= r.s
    requires PathAround(d, r.files, p) && p[0] in roots && i < |p|
    ensures p[i] in r.s
    decreases i
  {
    hide Walked, Reachable, FileChild, HasChild;
    if i > 0 {
      PathAroundIsMarked(d, roots, r, p, i - 1);
      assert p[i - 1] in r.s - NOTHING.s;
      assert HasChild(d, p[i - 1], p[i], true);
      WalkedNames(d, r.s, p[i - 1], p[i], true);
    }
  }

  /** What is marked is exactly what the roots reach without reading a directory
      that was first met as a file. */
  lemma MarkedIsAround(d: Depot, q: seq<Addr>, t: Addr)
    requires CanMark(d, q)
    ensures t in Marked(d, q) <==> ReachableAround(d, SetOf(q), MarksOf(d, q).files, t)
  {
    hide MarkAll, Closed, Adds, ReachableAround;
    InUniverse(d, q);
    var all, roots, r := Universe(d, SetOf(q)), SetOf(q), MarksOf(d, q);
    AllMarksAround(d, all, roots, NOTHING, q, r.files);
    assert r.s - NOTHING.s == r.s;
    MarkAllAdds(d, all, roots, NOTHING, q);
    if ReachableAround(d, roots, r.files, t) {
      AroundIsMarked(d, roots, r, t);
    }
  }

  lemma AroundIsMarked(d: Depot, roots: set<Addr>, r: Marks, t: Addr)
    requires Adds(d, roots, NOTHING, r, true) && roots <= r.s && ReachableAround(d, roots, r.files, t)
    ensures t in r.s
  {
    hide HasChild, Adds, PathAround;
    if ReachesAround(d, roots, r.files, t) {
      var p :| |p| > 0 && PathAround(d, r.files, p) && p[0] in roots && p[|p| - 1] == t;
      PathAroundIsMarked(d, roots, r, p, |p| - 1);
    } else {
      var u :| u !in r.files && ReachesAround(d, roots, r.files, u) && HasChild(d, u, t, false);
      var p :| |p| > 0 && PathAround(d, r.files, p) && p[0] in roots && p[|p| - 1] == u;
      PathAroundIsMarked(d, roots, r, p, |p| - 1);
      ReadNames(d, roots, r, u, t);
    }
  }

  lemma ReadNames(d: Depot, roots: set<Addr>, r: Marks, u: Addr, t: Addr)
    requires Adds(d, roots, NOTHING, r, true) && u in r.s && u !in r.files && HasChild(d, u, t, false)
    ensures t in r.s
  {
    hide Walked, Reachable, FileChild, HasChild;
    assert u in r.s - NOTHING.s;
    WalkedNames(d, r.s, u, t, false);
  }

  lemma AvoidingLess(d: Depot, roots: set<Addr>, a: set<Addr>, b: set<Addr>, t: Addr)
    requires a <= b && ReachableAround(d, roots, b, t)
    ensures ReachableAround(d, roots, a, t)
  {
    hide HasChild, DirPath;
    if ReachesAround(d, roots, b, t) {
      var p :| |p| > 0 && PathAround(d, b, p) && p[0] in roots && p[|p| - 1] == t;
      assert PathAround(d, a, p);
      assert ReachesAround(d, roots, a, t);
    } else {
      var u :| u !in b && ReachesAround(d, roots, b, u) && HasChild(d, u, t, false);
      var p :| |p| > 0 && PathAround(d, b, p) && p[0] in roots && p[|p| - 1] == u;
      assert PathAround(d, a, p);
      assert ReachesAround(d, roots, a, u);
    }
  }

  /** In every depot: the first directory that is met as a file before it is met as
      a directory keeps what it alone leads to from being marked, although it is
      reachable. */
  lemma FirstUnreadLoses(d: Depot, q: seq<Addr>, i: nat, c: Addr, dir: bool)
    requires CanMark(d, q) && FirstUnread(d, Order(d, q), i)
    requires var a := Order(d, q)[i].addr; HasChild(d, a, c, dir) && !ReachableAround(d, SetOf(q), {a}, c)
    ensures Reachable(d, SetOf(q), c) && c !in Marked(d, q)
  {
    hide Order, HasChild, ReachesDir, ReachableAround, Marked, MarksOf, CanMark;
    var a := Order(d, q)[i].addr;
    UnreadIsReached(d, q, i);
    if dir {
      ChildReaches(d, SetOf(q), a, c);
    }
    FirstUnreadIsFile(d, q, i);
    MarkedIsAround(d, q, c);
    if c in Marked(d, q) {
      AvoidingLess(d, SetOf(q), {a}, MarksOf(d, q).files, c);
    }
  }
}
