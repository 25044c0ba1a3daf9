/** When marking fails (cas-gc.c: mark_tree, mark_log_entry). */
module MarkFails {
  import opened Entries
  import opened Directory
  import opened Depots
  import opened Gc
  import opened Tour

  // ------------------------------------------------------------------
  // The first directory that does not load
  // ------------------------------------------------------------------

  /** Something is stored at the address, but no directory. */
  predicate Refuses(d: Depot, t: Addr) { Load(d, t).WrongType? || Load(d, t).Corrupt? }

  /** The i-th address met is first met here, as a directory, and is none. */
  ghost predicate FailsAt(d: Depot, order: seq<Met>, i: nat)
    requires i < |order|
  {
    order[i].dir && Refuses(d, order[i].addr) && forall j :: 0 <= j < i ==> order[j].addr != order[i].addr
  }

  /** The same, given the marks made before. */
  ghost predicate BadAt(d: Depot, m: Marks, order: seq<Met>, i: nat)
    requires i < |order|
  {
    order[i].dir && Refuses(d, order[i].addr) && order[i].addr !in Meet(m, order[..i]).s
  }

  ghost predicate NoneBad(d: Depot, m: Marks, order: seq<Met>) { forall i :: 0 <= i < |order| ==> !BadAt(d, m, order, i) }

  /** The i-th address met is one and no directory before it clashed. */
  ghost predicate BadFirst(d: Depot, m: Marks, order: seq<Met>, i: nat)
  {
    i < |order| && BadAt(d, m, order, i) && forall j :: 0 <= j < i ==> !ClashAt(d, m, order, j)
  }

  lemma BadSplits(d: Depot, m: Marks, a: seq<Met>, b: seq<Met>, i: nat)
    requires i < |a| + |b|
    ensures BadAt(d, m, a + b, i) <==> if i < |a| then BadAt(d, m, a, i) else BadAt(d, Meet(m, a), b, i - |a|)
  {
    hide Meet, Refuses;
    if i < |a| {
      assert (a + b)[..i] == a[..i];
    } else {
      assert (a + b)[..i] == a + b[..i - |a|];
      MeetAppend(m, a, b[..i - |a|]);
    }
  }

  lemma NoneBadSplits(d: Depot, m: Marks, a: seq<Met>, b: seq<Met>)
    requires NoneBad(d, m, a + b)
    ensures NoneBad(d, m, a) && NoneBad(d, Meet(m, a), b)
  {
    hide BadAt, Meet;
    forall i | 0 <= i < |a|
      ensures !BadAt(d, m, a, i)
    {
      BadSplits(d, m, a, b, i);
    }
    forall i | 0 <= i < |b|
      ensures !BadAt(d, Meet(m, a), b, i)
    {
      BadSplits(d, m, a, b, |a| + i);
    }
  }

  lemma BadFirstSplits(d: Depot, m: Marks, a: seq<Met>, b: seq<Met>, i: nat)
    requires BadFirst(d, m, a + b, i)
    ensures i < |a| ==> BadFirst(d, m, a, i)
    ensures i >= |a| ==> ClashFree(d, m, a) && BadFirst(d, Meet(m, a), b, i - |a|)
  {
    hide BadAt, ClashAt, Meet;
    BadSplits(d, m, a, b, i);
    forall j | 0 <= j < i && j < |a|
      ensures !ClashAt(d, m, a, j)
    {
      ClashSplits(d, m, a, b, j);
    }
    if i >= |a| {
      forall j | 0 <= j < i - |a|
        ensures !ClashAt(d, Meet(m, a), b, j)
      {
        ClashSplits(d, m, a, b, |a| + j);
      }
    }
  }

  lemma OneIsBad(d: Depot, m: Marks, t: Addr)
    ensures BadAt(d, m, [Met(t, true)], 0) <==> Refuses(d, t) && t !in m.s
    ensures !BadAt(d, m, [Met(t, false)], 0)
    ensures ClashAt(d, m, [Met(t, true)], 0) <==> Load(d, t).Listing? && t in m.files
  {
    hide Load;
    assert [Met(t, true)][..0] == [];
  }

  lemma OneLoads(d: Depot, t: Addr)
    ensures Refuses(d, t) ==> !Load(d, t).Listing? && !Load(d, t).Missing?
    ensures !Refuses(d, t) ==> Load(d, t).Listing? || Load(d, t).Missing?
  {
    hide Load;
  }

  // ------------------------------------------------------------------
  // Nothing bad, nothing fails
  // ------------------------------------------------------------------

  lemma {:induction false} MarkSucceeds(d: Depot, all: set<Addr>, m: Marks, seen: set<Addr>, t: Addr)
    requires Closed(d, all) && t in all && InStep(d, m, seen)
    requires ClashFree(d, m, Visit(d, all, seen, t).1) && NoneBad(d, m, Visit(d, all, seen, t).1)
    ensures Mark(d, all, m, t).1
    decreases all - m.s, 0
  {
    hide Load, Meet, ClashFree, NoneBad, Refuses;
    OneMeeting(d, m, t);
    OneLoads(d, t);
    if t !in m.s && Load(d, t).Listing? {
      var m1, dir := m.(s := m.s + {t}), Load(d, t).dir;
      assert ListsOnly(dir, all);
      var rest := VisitList(d, all, seen + {t}, dir).1;
      ClashFreeSplits(d, m, [Met(t, true)], rest);
      NoneBadSplits(d, m, [Met(t, true)], rest);
      ListSucceeds(d, all, m1, seen + {t}, dir);
    } else if t !in m.s {
      HeadNotBad(d, m, t, Visit(d, all, seen, t).1);
    }
  }

  lemma HeadNotBad(d: Depot, m: Marks, t: Addr, order: seq<Met>)
    requires order != [] && order[0] == Met(t, true) && NoneBad(d, m, order) && t !in m.s
    ensures !Refuses(d, t)
  {
    hide Refuses;
    assert !BadAt(d, m, order, 0) && order[..0] == [];
  }

  lemma {:induction false} ListSucceeds(d: Depot, all: set<Addr>, m: Marks, seen: set<Addr>, dir: seq<Entry>)
    requires Closed(d, all) && ListsOnly(dir, all) && InStep(d, m, seen)
    requires ClashFree(d, m, VisitList(d, all, seen, dir).1) && NoneBad(d, m, VisitList(d, all, seen, dir).1)
    ensures MarkList(d, all, m, dir).1
    decreases all - m.s, 1, |dir|
  {
    hide Load, ClashFree, NoneBad, Mark, Visit, Closed;
    if dir != [] {
      var t, rest := dir[0].hash, dir[1..];
      if IsDirEntry(dir[0]) {
        var r := Visit(d, all, seen, t);
        var s := VisitList(d, all, r.0, rest);
        ClashFreeSplits(d, m, r.1, s.1);
        NoneBadSplits(d, m, r.1, s.1);
        hide Meet, InStep;
        MarkSucceeds(d, all, m, seen, t);
        KeepsStep(d, all, m, seen, t);
        ListSucceeds(d, all, Mark(d, all, m, t).0, r.0, rest);
      } else {
        var s := VisitList(d, all, seen, rest);
        OneMeeting(d, m, t);
        ClashFreeSplits(d, m, [Met(t, false)], s.1);
        NoneBadSplits(d, m, [Met(t, false)], s.1);
        hide Meet;
        ListSucceeds(d, all, AddFile(m, t), seen, rest);
      }
    }
  }

  lemma {:induction false} AllSucceed(d: Depot, all: set<Addr>, m: Marks, seen: set<Addr>, q: seq<Addr>)
    requires Closed(d, all) && (forall t :: t in q ==> t in all) && InStep(d, m, seen)
    requires ClashFree(d, m, VisitAll(d, all, seen, q).1) && NoneBad(d, m, VisitAll(d, all, seen, q).1)
    ensures MarkAll(d, all, m, q).1
    decreases |q|
  {
    hide Load, ClashFree, NoneBad, Mark, Visit, Closed;
    if q != [] {
      var r := Visit(d, all, seen, q[0]);
      var s := VisitAll(d, all, r.0, q[1..]);
      ClashFreeSplits(d, m, r.1, s.1);
      NoneBadSplits(d, m, r.1, s.1);
      hide Meet, InStep;
      MarkSucceeds(d, all, m, seen, q[0]);
      KeepsStep(d, all, m, seen, q[0]);
      AllSucceed(d, all, Mark(d, all, m, q[0]).0, r.0, q[1..]);
    }
  }

  // ------------------------------------------------------------------
  // What is bad before any clash fails
  // ------------------------------------------------------------------

  lemma {:induction false} MarkStumbles(d: Depot, all: set<Addr>, m: Marks, seen: set<Addr>, t: Addr, i: nat)
    requires Closed(d, all) && t in all && InStep(d, m, seen) && BadFirst(d, m, Visit(d, all, seen, t).1, i)
    ensures !Mark(d, all, m, t).1
    decreases all - m.s, 0
  {
    hide Load, Meet, BadFirst, Refuses, BadAt, ClashAt;
    OneMeeting(d, m, t);
    OneLoads(d, t);
    OneIsBad(d, m, t);
    if t in seen || !Load(d, t).Listing? {
      OneBadFirst(d, m, t, i);
    } else {
      var m1, dir := m.(s := m.s + {t}), Load(d, t).dir;
      assert ListsOnly(dir, all);
      var rest := VisitList(d, all, seen + {t}, dir).1;
      BadFirstSplits(d, m, [Met(t, true)], rest, i);
      if i < 1 {
        OneBadFirst(d, m, t, i);
      } else {
        OneUnclashed(d, m, t);
        ListStumbles(d, all, m1, seen + {t}, dir, i - 1);
      }
    }
  }

  lemma OneBadFirst(d: Depot, m: Marks, t: Addr, i: nat)
    requires BadFirst(d, m, [Met(t, true)], i)
    ensures Refuses(d, t) && t !in m.s
  {
    hide Refuses, BadAt, ClashAt;
    OneIsBad(d, m, t);
  }

  lemma OneUnclashed(d: Depot, m: Marks, t: Addr)
    ensures ClashFree(d, m, [Met(t, true)]) ==> !(Load(d, t).Listing? && t in m.files)
  {
    OneMeeting(d, m, t);
  }

  lemma {:induction false} ListStumbles(d: Depot, all: set<Addr>, m: Marks, seen: set<Addr>, dir: seq<Entry>, i: nat)
    requires Closed(d, all) && ListsOnly(dir, all) && InStep(d, m, seen)
    requires BadFirst(d, m, VisitList(d, all, seen, dir).1, i)
    ensures !MarkList(d, all, m, dir).1
    decreases all - m.s, 1, |dir|
  {
    hide Load, BadFirst, Mark, Visit, Closed, ClashFree;
    BadIsInside(d, m, VisitList(d, all, seen, dir).1, i);
    if dir != [] {
      var t, rest := dir[0].hash, dir[1..];
      if IsDirEntry(dir[0]) {
        var r := Visit(d, all, seen, t);
        var s := VisitList(d, all, r.0, rest);
        BadFirstSplits(d, m, r.1, s.1, i);
        hide Meet, InStep;
        if i < |r.1| {
          MarkStumbles(d, all, m, seen, t, i);
        } else if Mark(d, all, m, t).1 {
          KeepsStep(d, all, m, seen, t);
          ListStumbles(d, all, Mark(d, all, m, t).0, r.0, rest, i - |r.1|);
        }
      } else {
        var s := VisitList(d, all, seen, rest);
        OneMeeting(d, m, t);
        FileIsNotBad(d, m, t, s.1, i);
        BadFirstSplits(d, m, [Met(t, false)], s.1, i);
        hide Meet;
        ListStumbles(d, all, AddFile(m, t), seen, rest, i - 1);
      }
    }
  }

  lemma BadIsInside(d: Depot, m: Marks, order: seq<Met>, i: nat)
    requires BadFirst(d, m, order, i)
    ensures i < |order|
  {
    hide BadAt, ClashAt;
  }

  lemma FileIsNotBad(d: Depot, m: Marks, t: Addr, rest: seq<Met>, i: nat)
    requires BadFirst(d, m, [Met(t, false)] + rest, i)
    ensures i > 0
  {
    hide ClashAt, Refuses, Meet;
  }

  lemma {:induction false} AllStumble(d: Depot, all: set<Addr>, m: Marks, seen: set<Addr>, q: seq<Addr>, i: nat)
    requires Closed(d, all) && (forall t :: t in q ==> t in all) && InStep(d, m, seen)
    requires BadFirst(d, m, VisitAll(d, all, seen, q).1, i)
    ensures !MarkAll(d, all, m, q).1
    decreases |q|
  {
    hide Load, BadFirst, Mark, Visit, Closed, ClashFree;
    BadIsInside(d, m, VisitAll(d, all, seen, q).1, i);
    if q != [] {
      var r := Visit(d, all, seen, q[0]);
      var s := VisitAll(d, all, r.0, q[1..]);
      BadFirstSplits(d, m, r.1, s.1, i);
      hide Meet, InStep;
      if i < |r.1| {
        MarkStumbles(d, all, m, seen, q[0], i);
      } else if Mark(d, all, m, q[0]).1 {
        KeepsStep(d, all, m, seen, q[0]);
        AllStumble(d, all, Mark(d, all, m, q[0]).0, r.0, q[1..], i - |r.1|);
      }
    }
  }

  // ------------------------------------------------------------------
  // In terms of the order alone
  // ------------------------------------------------------------------

  lemma FailsIsBad(d: Depot, order: seq<Met>, i: nat)
    requires i < |order|
    ensures FailsAt(d, order, i) <==> BadAt(d, NOTHING, order, i)
  {
    hide Refuses, Meet;
    MeetMarks(order[..i], order[i].addr);
    assert forall j :: 0 <= j < i ==> order[..i][j] == order[j];
  }

  lemma NoneFailsIsNoneBad(d: Depot, order: seq<Met>)
    requires forall i :: 0 <= i < |order| ==> !FailsAt(d, order, i)
    ensures NoneBad(d, NOTHING, order)
  {
    hide FailsAt, BadAt;
    forall i | 0 <= i < |order|
      ensures !BadAt(d, NOTHING, order, i)
    {
      FailsIsBad(d, order, i);
    }
  }

  lemma FailsFirst(d: Depot, order: seq<Met>, i: nat)
    requires i < |order| && FailsAt(d, order, i) && forall j :: 0 <= j < i ==> !UnreadAt(d, order, j)
    ensures BadFirst(d, NOTHING, order, i)
  {
    hide FailsAt, BadAt, UnreadAt, ClashAt;
    FailsIsBad(d, order, i);
    forall j | 0 <= j < i
      ensures !ClashAt(d, NOTHING, order, j)
    {
      UnreadIsClash(d, order, j);
    }
  }

  /** In every depot: an address first met as a directory that is none makes the
      mark fail, as long as no directory before it was first met as a file. */
  lemma FailingMark(d: Depot, q: seq<Addr>, i: nat)
    requires i < |Order(d, q)| && FailsAt(d, Order(d, q), i)
    requires forall j :: 0 <= j < i ==> !UnreadAt(d, Order(d, q), j)
    ensures !CanMark(d, q)
  {
    FailsFirst(d, Order(d, q), i);
    hide VisitAll, MarkAll, Closed, BadFirst, FailsAt, UnreadAt;
    InUniverse(d, q);
    StepsFromNothing(d);
    AllStumble(d, Universe(d, SetOf(q)), NOTHING, {}, q, i);
  }

  /** Where no directory is first met as a file, the mark succeeds exactly when
      every address first met as a directory loads as a listing or is missing. */
  lemma CanMarkIff(d: Depot, q: seq<Addr>)
    requires ReadsAll(d, q)
    ensures CanMark(d, q) <==> forall i :: 0 <= i < |Order(d, q)| ==> !FailsAt(d, Order(d, q), i)
  {
    NoneUnread(d, q);
    var order := Order(d, q);
    hide VisitAll, MarkAll, Closed, FailsAt, UnreadAt, ReadsAll, ClashFree, NoneBad;
    if forall i :: 0 <= i < |order| ==> !FailsAt(d, order, i) {
      NothingClashes(d, order);
      NoneFailsIsNoneBad(d, order);
      InUniverse(d, q);
      StepsFromNothing(d);
      AllSucceed(d, Universe(d, SetOf(q)), NOTHING, {}, q);
    } else {
      var i :| 0 <= i < |order| && FailsAt(d, order, i);
      FailingMark(d, q, i);
    }
  }

  /** In every depot: a root at which something other than a directory is stored,
      and which no directory names as a file, makes the mark fail. */
  lemma RootMustBeTree(d: Depot, q: seq<Addr>, t: Addr)
    requires t in q && Refuses(d, t) && !FileChild(d, SetOf(q), t)
    ensures !CanMark(d, q)
  {
    hide Load, FileChild, Reachable, MarkAll, Closed;
    InUniverse(d, q);
    if CanMark(d, q) {
      MarkAllAdds(d, Universe(d, SetOf(q)), SetOf(q), NOTHING, q);
    }
  }
}
