/** Runs of commits, truncations, stores, collections and compactions over one
    store with its pack (cas-tree.c, cas-gc.c, cas-pack.c). */
module Runs {
  import opened Bytes
  import opened Entries
  import opened Objects
  import opened Depots
  import opened Refs
  import opened History
  import opened Gc
  import opened Tour
  import opened Preserve
  import opened Pack
  import opened Packer
  import opened Compact

  // ------------------------------------------------------------------
  // Steps
  // ------------------------------------------------------------------

  datatype World = World(refs: seq<Files>, shelf: Shelf)

  /** Compaction is cas_tree_gc_pack, stopped after so many steps and leaving this
      store; a stopped call is followed by the store being opened again. */
  datatype Step =
    | Create
    | Commit(ref: nat, e: LogEntry)
    | TruncateAt(ref: nat, keepCount: int, keepSince: int)
    | Put(addr: Digest, file: seq<byte>)
    | Collect(roots: seq<Addr>, cutoff: int, mtimes: map<Digest, int>)
    | Compaction(roots: seq<Addr>, hs: seq<Digest>, order: seq<Digest>, cutoff: int, mtimes: map<Digest, int>, steps: nat,
                 left: Shelf)

  /** The store as opened: the committed pack mapped. */
  function Reopened(s: Shelf): Shelf { Shelf(s.loose, s.disk, s.disk) }

  /** cas_put_object_at with the file it would write. */
  function PutFile(env: Env, s: Shelf, h: Digest, file: seq<byte>): Shelf
  {
    if h in s.loose || InPack(env, s.live, h) != NotThere then s else s.(loose := s.loose[h := file])
  }

  function SweptShelf(s: Shelf, marked: set<Addr>, cutoff: int, mtimes: map<Digest, int>): Shelf
  {
    s.(loose := Swept(s.loose, marked, cutoff, mtimes))
  }

  /** What the call leaves, as its contract says. */
  ghost predicate Leaves(env: Env, s: Shelf, q: seq<Addr>, hs: seq<Digest>, order: seq<Digest>, cutoff: int,
        mtimes: map<Digest, int>, steps: nat, e: Shelf)
  {
    if !CanMark(Abs(env, s), q) || steps == 0 then e == s
    else
      PacksWanted(env, s, Marked(Abs(env, s), q), hs)
      && if AllPackable(env, s, hs) then GcPackStopped(env, s, Marked(Abs(env, s), q), hs, order, cutoff, mtimes, steps, e)
         else e == s
  }

  /** Everything the compaction packs reads and fits, and everything reachable is
      Kept by it. */
  ghost predicate Bearable(env: Env, s: Shelf, q: seq<Addr>, hs: seq<Digest>)
  {
    SaneFor(env, s, hs)
    && (AllPackable(env, s, hs) ==> Fits(env, s, hs))
    && forall t :: Reachable(Abs(env, s), SetOf(q), t) && IsHash(t) ==> Compact.Kept(env, s, hs, t)
  }

  /** Committed lines read back; a collection or compaction marks from the logs and
      reads every directory. */
  ghost predicate Enabled(env: Env, w: World, s: Step)
  {
    match s
    case Commit(i, e) => i < |w.refs| && Sound(e)
    case TruncateAt(i, _, _) => i < |w.refs|
    case Collect(q, _, _) => SetOf(q) == LogRoots(w.refs) && ReadsAll(Abs(env, w.shelf), q)
    case Compaction(q, hs, order, cutoff, mtimes, steps, left) =>
      && SetOf(q) == LogRoots(w.refs) && ReadsAll(Abs(env, w.shelf), q)
      && Bearable(env, w.shelf, q, hs)
      && Leaves(env, w.shelf, q, hs, order, cutoff, mtimes, steps, left)
    case _ => true
  }

  ghost function Next(env: Env, w: World, s: Step): World
    requires Enabled(env, w, s)
  {
    match s
    case Create => w.(refs := w.refs + [NO_FILES])
    case Commit(i, e) => w.(refs := w.refs[i := CommitSteps(w.refs[i], e, 5)])
    case TruncateAt(i, c, t) => w.(refs := w.refs[i := TruncateLog(w.refs[i], c, t)])
    case Put(a, file) => w.(shelf := PutFile(env, w.shelf, a, file))
    case Collect(q, cutoff, mtimes) =>
      if CanMark(Abs(env, w.shelf), q) then w.(shelf := SweptShelf(w.shelf, Marked(Abs(env, w.shelf), q), cutoff, mtimes)) else w
    case Compaction(_, _, _, _, _, _, left) => w.(shelf := Reopened(left))
  }

  ghost predicate CanRun(env: Env, w: World, steps: seq<Step>)
    decreases |steps|
  {
    steps == [] || (Enabled(env, w, steps[0]) && CanRun(env, Next(env, w, steps[0]), steps[1..]))
  }

  ghost function Run(env: Env, w: World, steps: seq<Step>): World
    requires CanRun(env, w, steps)
    decreases |steps|
  {
    if steps == [] then w else Run(env, Next(env, w, steps[0]), steps[1..])
  }

  /** Between steps every ref is settled and the committed pack is mapped. */
  ghost predicate Steady(env: Env, w: World)
  {
    Mapped(env, w.shelf) && forall i :: 0 <= i < |w.refs| ==> Settled(w.refs[i])
  }

  // ------------------------------------------------------------------
  // The store, step by step
  // ------------------------------------------------------------------

  lemma PutIsStored(env: Env, s: Shelf, h: Digest, file: seq<byte>)
    ensures Abs(env, PutFile(env, s, h, file)) == Depots.Stored(Abs(env, s), h, AsObject(ReadLoose(env.codec, file)))
  {
    hide PackHashes, ReadPack, ReadLoose, AsObject;
    FoundIsListed(env, s.live, h);
  }

  lemma SweptIsSwept(env: Env, s: Shelf, marked: set<Addr>, cutoff: int, mtimes: map<Digest, int>)
    ensures Abs(env, SweptShelf(s, marked, cutoff, mtimes))
            == Depot(Swept(Abs(env, s).loose, marked, cutoff, mtimes), Abs(env, s).pack)
  {
    hide PackHashes, ReadPack, ReadLoose, AsObject, Spared;
  }

  /** A call stopped before the new pack is mapped has, once the store is opened
      again, done just that much more. */
  lemma StoppedReopened(env: Env, s: Shelf, marked: set<Addr>, hs: seq<Digest>, order: seq<Digest>, cutoff: int,
        mtimes: map<Digest, int>, e: Shelf)
    requires Mapped(env, s) && GcPackStopped(env, s, marked, hs, order, cutoff, mtimes, 1, e)
    requires AllPackable(env, s, hs) ==> Fits(env, s, hs)
    ensures GcPackStopped(env, s, marked, hs, order, cutoff, mtimes, 2, Reopened(e))
  {
    PackIsValid(env, s, marked, hs, e);
    hide PacksWanted, AllPackable, PackAfter, OpenPack, Ordered, Fits;
    NoneUnlinked(env, s.loose, e.disk, order, marked, cutoff, mtimes);
  }

  lemma NoneUnlinked(env: Env, loose: map<Digest, seq<byte>>, pack: Option<seq<byte>>, order: seq<Digest>,
        marked: set<Addr>, cutoff: int, mtimes: map<Digest, int>)
    ensures LooseAfter(env, loose, pack, order, marked, cutoff, mtimes, 0) == loose
  {
    hide OpenPack, Reclaimable, Spared;
    assert Reclaimed(env, pack, order, 0) == {};
    assert loose - {} == loose;
    if order == [] {
      assert SweptSoFar(loose, [], 0, marked, cutoff, mtimes) == loose;
    }
  }

  /** Either nothing was packed or the committed pack opens and is in order. */
  lemma PackIsValid(env: Env, s: Shelf, marked: set<Addr>, hs: seq<Digest>, e: Shelf)
    requires PacksWanted(env, s, marked, hs) && AllPackable(env, s, hs) && e.disk == PackAfter(env, s, hs)
    requires Fits(env, s, hs)
    ensures if hs == [] then e.disk == s.disk else ValidPack(env, e.disk) && Ordered(env, e.disk)
  {
    hide OpenPack, Faithful, Packable, Strict, NewPackOf, Packer.Stored, Ordered;
    if hs != [] {
      FitsParts(env, s, hs);
      NewPackOrdered(env, s, hs);
    }
  }

  /** What a compaction leaves, once opened, is a store with its pack mapped. */
  lemma CompactedIsMapped(env: Env, s: Shelf, q: seq<Addr>, hs: seq<Digest>, order: seq<Digest>, cutoff: int,
        mtimes: map<Digest, int>, steps: nat, e: Shelf)
    requires Mapped(env, s) && Bearable(env, s, q, hs) && Leaves(env, s, q, hs, order, cutoff, mtimes, steps, e)
    ensures Mapped(env, Reopened(e))
  {
    hide CanMark, Marked, PacksWanted, AllPackable, PackAfter, OpenPack, Ordered, Fits, LooseAfter, Reachable, SaneFor, Compact.Kept;
    if e != s {
      PackIsValid(env, s, Marked(Abs(env, s), q), hs, e);
    }
  }

  /** With its pack mapped a store opened again is as it was. */
  lemma ReopenedMapped(env: Env, s: Shelf, marked: set<Addr>, hs: seq<Digest>, order: seq<Digest>, cutoff: int,
        mtimes: map<Digest, int>, steps: nat, e: Shelf)
    requires Mapped(env, s) && steps >= 2 && GcPackStopped(env, s, marked, hs, order, cutoff, mtimes, steps, e)
    requires AllPackable(env, s, hs) ==> Fits(env, s, hs)
    ensures Reopened(e) == e
  {
    PackIsValid(env, s, marked, hs, e);
    hide PacksWanted, AllPackable, PackAfter, OpenPack, Ordered, Fits, LooseAfter;
  }

  lemma ItselfReopened(env: Env, s: Shelf)
    requires Mapped(env, s)
    ensures Reopened(s) == s
  {
    hide Ordered;
  }

  /** A compaction stopped anywhere and followed by the store being opened again
      answers for everything reachable as the store did before. */
  lemma CompactingPreserves(env: Env, s: Shelf, q: seq<Addr>, hs: seq<Digest>, order: seq<Digest>, cutoff: int,
        mtimes: map<Digest, int>, steps: nat, e: Shelf)
    requires Mapped(env, s) && ReadsAll(Abs(env, s), q) && Bearable(env, s, q, hs)
    requires Leaves(env, s, q, hs, order, cutoff, mtimes, steps, e)
    ensures Preserves(Abs(env, s), Abs(env, Reopened(e)), SetOf(q))
  {
    hide *;
    BearableParts(env, s, q, hs);
    var marked := Marked(Abs(env, s), q);
    if e == s {
      ItselfReopened(env, s);
      PreservesItself(Abs(env, s), SetOf(q));
    } else if steps >= 2 {
      LeavesParts(env, s, q, hs, order, cutoff, mtimes, steps, e);
      ReopenedMapped(env, s, marked, hs, order, cutoff, mtimes, steps, e);
      StoppedCompactionPreserves(env, s, q, hs, order, cutoff, mtimes, steps, e);
    } else {
      LeavesParts(env, s, q, hs, order, cutoff, mtimes, steps, e);
      StoppedReopened(env, s, marked, hs, order, cutoff, mtimes, e);
      StoppedCompactionPreserves(env, s, q, hs, order, cutoff, mtimes, 2, Reopened(e));
    }
  }

  lemma BearableParts(env: Env, s: Shelf, q: seq<Addr>, hs: seq<Digest>)
    requires Bearable(env, s, q, hs)
    ensures SaneFor(env, s, hs) && (AllPackable(env, s, hs) ==> Fits(env, s, hs))
    ensures forall t :: Reachable(Abs(env, s), SetOf(q), t) && IsHash(t) ==> Compact.Kept(env, s, hs, t)
  {
    hide SaneFor, AllPackable, Fits, Reachable, Compact.Kept, Abs, IsHash;
  }

  lemma LeavesParts(env: Env, s: Shelf, q: seq<Addr>, hs: seq<Digest>, order: seq<Digest>, cutoff: int,
        mtimes: map<Digest, int>, steps: nat, e: Shelf)
    requires Leaves(env, s, q, hs, order, cutoff, mtimes, steps, e) && e != s
    ensures var marked := Marked(Abs(env, s), q);
            && CanMark(Abs(env, s), q) && steps > 0 && PacksWanted(env, s, marked, hs) && AllPackable(env, s, hs)
            && GcPackStopped(env, s, marked, hs, order, cutoff, mtimes, steps, e)
  {
    hide CanMark, Marked, PacksWanted, AllPackable, GcPackStopped, Abs;
  }

  // ------------------------------------------------------------------
  // Refs stay settled
  // ------------------------------------------------------------------

  lemma StepStaysSteady(env: Env, w: World, s: Step)
    requires Steady(env, w) && Enabled(env, w, s)
    ensures Steady(env, Next(env, w, s))
  {
    hide Settled, Recoverable, CommitSteps, TruncateLog, ReadsAll, Marked, CanMark, Ordered, Bearable, Leaves, ReadPack, LogRoots;
    match s
    case Create =>
      EmptySettled();
    case Commit(i, e) =>
      SettledIsRecoverable(w.refs[i]);
      CommitIsAtomic(w.refs[i], e, 5);
    case TruncateAt(i, c, t) =>
      TruncationSettles(w.refs[i], c, t);
    case Compaction(q, hs, order, cutoff, mtimes, steps, left) =>
      CompactedIsMapped(env, w.shelf, q, hs, order, cutoff, mtimes, steps, left);
    case _ =>
  }

  /** In every run, compactions stopped anywhere included, each ref's root stays its
      newest log entry and the committed pack stays in order. */
  lemma {:induction false} RunSettles(env: Env, w: World, steps: seq<Step>)
    requires Steady(env, w) && CanRun(env, w, steps)
    ensures Steady(env, Run(env, w, steps))
    decreases |steps|
  {
    hide Steady, Next, Enabled;
    if steps != [] {
      StepStaysSteady(env, w, steps[0]);
      RunSettles(env, Next(env, w, steps[0]), steps[1..]);
    }
  }

  // ------------------------------------------------------------------
  // Complete trees stay complete
  // ------------------------------------------------------------------

  /** Everything the tree at h reaches is present. */
  ghost predicate WholeTree(d: Depot, h: Addr)
  {
    forall t :: Reachable(d, {h}, t) ==> Open(d, t).Got?
  }

  lemma StoringPreserves(d: Depot, a: Digest, o: Object, h: Addr)
    requires WholeTree(d, h)
    ensures Preserves(d, Depots.Stored(d, a, o), {h})
  {
    hide HexDecode, Reachable, IsHash, IsLowerHash;
  }

  lemma MoreRoots(d: Depot, a: set<Addr>, b: set<Addr>, t: Addr)
    requires a <= b && Reachable(d, a, t)
    ensures Reachable(d, b, t)
  {
    hide HasChild;
    if ReachesDir(d, a, t) {
      var p :| DirPath(d, p) && p[0] in a && p[|p| - 1] == t;
      assert ReachesDir(d, b, t);
    } else {
      var u :| ReachesDir(d, a, u) && HasChild(d, u, t, false);
      var p :| DirPath(d, p) && p[0] in a && p[|p| - 1] == u;
      assert ReachesDir(d, b, u);
    }
  }

  /** What preserves everything the logs reach preserves the tree of each entry. */
  lemma OneOfTheRoots(d: Depot, e: Depot, roots: set<Addr>, h: Addr)
    requires Preserves(d, e, roots) && h in roots
    ensures Preserves(d, e, {h})
  {
    hide Reachable, Open;
    forall t | Reachable(d, {h}, t)
      ensures Open(e, t) == Open(d, t)
    {
      MoreRoots(d, {h}, roots, t);
    }
  }

  lemma CollectingPreserves(env: Env, s: Shelf, q: seq<Addr>, cutoff: int, mtimes: map<Digest, int>)
    requires CanMark(Abs(env, s), q) && ReadsAll(Abs(env, s), q)
    ensures Preserves(Abs(env, s), Abs(env, SweptShelf(s, Marked(Abs(env, s), q), cutoff, mtimes)), SetOf(q))
  {
    hide Abs, ReadsAll, Preserves, Swept, Marked, CanMark, SweptShelf;
    SweptIsSwept(env, s, Marked(Abs(env, s), q), cutoff, mtimes);
    CollectionPreserves(Abs(env, s), Abs(env, SweptShelf(s, Marked(Abs(env, s), q), cutoff, mtimes)), q, cutoff, mtimes);
  }

  lemma PreservesIsTransitive(d: Depot, e: Depot, f: Depot, roots: set<Addr>)
    requires Preserves(d, e, roots) && Preserves(e, f, roots)
    ensures Preserves(d, f, roots)
  {
    hide Reachable, Open;
    forall t | Reachable(d, roots, t)
      ensures Open(f, t) == Open(d, t)
    {
      PreservedReachability(d, e, roots, t);
    }
  }

  lemma WholeStaysWhole(d: Depot, e: Depot, h: Addr)
    requires WholeTree(d, h) && Preserves(d, e, {h})
    ensures WholeTree(e, h)
  {
    hide Reachable, Open;
    forall t | Reachable(e, {h}, t)
      ensures Open(e, t).Got?
    {
      PreservedReachability(d, e, {h}, t);
    }
  }

  predicate Touches(s: Step, i: nat) { s.Commit? && s.ref == i }

  lemma StepKeepsTree(env: Env, w: World, s: Step, i: nat, h: Addr)
    requires Steady(env, w) && Enabled(env, w, s) && i < |w.refs| && !Touches(s, i)
    requires RootOf(w.refs[i]) == Some(h) && WholeTree(Abs(env, w.shelf), h)
    ensures i < |Next(env, w, s).refs| && RootOf(Next(env, w, s).refs[i]) == Some(h)
    ensures Preserves(Abs(env, w.shelf), Abs(env, Next(env, w, s).shelf), {h})
  {
    var d := Abs(env, w.shelf);
    hide Settled, CommitSteps, TruncateLog, ReadsAll, WholeTree, Marked, CanMark, Preserves, LogRoots, Bearable, Leaves,
      Abs, PutFile, SweptShelf, Ordered;
    RootIsLogged(env, w, i, h);
    match s
    case TruncateAt(j, c, t) =>
      TruncationSettles(w.refs[j], c, t);
      PreservesItself(d, {h});
    case Put(a, file) =>
      PutIsStored(env, w.shelf, a, file);
      StoringPreserves(d, a, AsObject(ReadLoose(env.codec, file)), h);
    case Collect(q, cutoff, mtimes) =>
      if CanMark(d, q) {
        CollectingPreserves(env, w.shelf, q, cutoff, mtimes);
        OneOfTheRoots(d, Abs(env, Next(env, w, s).shelf), SetOf(q), h);
      } else {
        PreservesItself(d, {h});
      }
    case Compaction(q, hs, order, cutoff, mtimes, steps, left) =>
      CompactingPreserves(env, w.shelf, q, hs, order, cutoff, mtimes, steps, left);
      OneOfTheRoots(d, Abs(env, Reopened(left)), SetOf(q), h);
    case _ =>
      PreservesItself(d, {h});
  }

  lemma RootIsLogged(env: Env, w: World, i: nat, h: Addr)
    requires Steady(env, w) && i < |w.refs| && RootOf(w.refs[i]) == Some(h)
    ensures h in LogRoots(w.refs)
  {
    hide ReadLog, ReadRoot, Complete, Ordered;
    var f := w.refs[i];
    assert Settled(f);
    assert LogEntries(f)[|LogEntries(f)| - 1] in LogEntries(f);
  }

  /** A tree that is complete while it is a ref's root stays complete, object for
      object, through any run until that ref is committed again: collections, and
      compactions stopped anywhere, among its steps. */
  lemma {:induction false} RunKeepsTree(env: Env, w: World, steps: seq<Step>, i: nat, h: Addr)
    requires Steady(env, w) && CanRun(env, w, steps) && i < |w.refs|
    requires forall s :: s in steps ==> !Touches(s, i)
    requires RootOf(w.refs[i]) == Some(h) && WholeTree(Abs(env, w.shelf), h)
    ensures var v := Run(env, w, steps);
            && i < |v.refs| && RootOf(v.refs[i]) == Some(h)
            && Preserves(Abs(env, w.shelf), Abs(env, v.shelf), {h}) && WholeTree(Abs(env, v.shelf), h)
    decreases |steps|
  {
    hide Steady, Next, Enabled, WholeTree, Preserves, RootOf, Abs;
    if steps == [] {
      PreservesItself(Abs(env, w.shelf), {h});
    } else {
      var n := Next(env, w, steps[0]);
      StepStaysSteady(env, w, steps[0]);
      StepKeepsTree(env, w, steps[0], i, h);
      WholeStaysWhole(Abs(env, w.shelf), Abs(env, n.shelf), h);
      RunKeepsTree(env, n, steps[1..], i, h);
      PreservesIsTransitive(Abs(env, w.shelf), Abs(env, n.shelf), Abs(env, Run(env, w, steps).shelf), {h});
    }
  }

  /** In particular every path in it leads to the object it led to. */
  lemma RunKeepsPaths(env: Env, w: World, steps: seq<Step>, i: nat, h: Addr, names: seq<seq<byte>>)
    requires Steady(env, w) && CanRun(env, w, steps) && i < |w.refs|
    requires forall s :: s in steps ==> !Touches(s, i)
    requires RootOf(w.refs[i]) == Some(h) && WholeTree(Abs(env, w.shelf), h)
    ensures Resolve(Abs(env, Run(env, w, steps).shelf), h, names) == Resolve(Abs(env, w.shelf), h, names)
  {
    hide Steady, WholeTree, Preserves, RootOf, ReachesDir, Run, CanRun, Abs;
    var d := Abs(env, w.shelf);
    RunKeepsTree(env, w, steps, i, h);
    RootReaches(d, {h}, h);
    DirReaches(d, {h}, h);
    WalksSurvive(d, Abs(env, Run(env, w, steps).shelf), {h}, h, names);
  }
}
