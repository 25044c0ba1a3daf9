/** What commits, truncations and collections do to refs and trees over whole
    runs (cas-tree.c: cas_tree_ref_commit, cas_tree_log_truncate; cas-gc.c). */
module History {
  import opened Bytes
  import opened Entries
  import opened TreeText
  import opened Objects
  import opened Directory
  import opened Depots
  import opened Refs
  import opened Gc
  import opened Preserve

  // ------------------------------------------------------------------
  // One ref
  // ------------------------------------------------------------------

  ghost predicate LogReads(f: Files) { Complete(LogText(f)) && ReadLog(LogText(f)).ok }

  function LogEntries(f: Files): seq<LogEntry> { ReadLog(LogText(f)).entries }

  function RootOf(f: Files): Option<Addr>
  {
    if f.root.None? then None else ReadRoot(f.root.value)
  }

  /** The log reads to its end and the root file holds a value the log has. */
  ghost predicate Recoverable(f: Files)
  {
    LogReads(f) && (f.root.Some? ==> RootOf(f).Some? && exists e :: e in LogEntries(f) && e.root == RootOf(f).value)
  }

  /** As between commits: the root is the newest log entry. */
  ghost predicate Settled(f: Files)
  {
    && LogReads(f)
    && (if f.root.None? then LogEntries(f) == []
        else LogEntries(f) != [] && RootOf(f) == Some(LogEntries(f)[|LogEntries(f)| - 1].root))
  }

  predicate Sound(e: LogEntry) { IsHash(e.root) && 0 !in e.comment && Committable(e) }

  lemma CommittedLog(f: Files, e: LogEntry)
    requires LogReads(f) && Sound(e)
    ensures Complete(LogText(f) + LogLine(e))
    ensures ReadLog(LogText(f) + LogLine(e)) == Delivered(LogEntries(f) + [e], true)
  {
    hide Committable, LogText, ReadLog, IsHash, Complete, LogLine;
    AppendedEntryReadsBack(LogText(f), e);
  }

  /** A commit stopped after any of its file changes leaves the root at the old
      or the new value, with that value in a log that reads; a commit that is
      not stopped leaves the new value as root and newest entry. */
  lemma CommitIsAtomic(f: Files, e: LogEntry, k: nat)
    requires Recoverable(f) && Sound(e)
    ensures var g := CommitSteps(f, e, k);
            && Recoverable(g)
            && (g.root == f.root || RootOf(g) == Some(e.root))
            && (LogEntries(g) == LogEntries(f) || LogEntries(g) == LogEntries(f) + [e])
            && (g.prev == f.prev || g.prev == f.root)
            && (k >= 5 ==> Settled(g) && RootOf(g) == Some(e.root) && LogEntries(g) == LogEntries(f) + [e] && g.tmp.None?
                           && (f.root.Some? ==> g.prev == f.root))
  {
    hide ReadLog, IsHash, Committable, LogLine, Complete, ReadRoot;
    CommittedLog(f, e);
    RootReadsBack(e.root);
    var g := CommitSteps(f, e, k);
    assert LogText(g) == LogText(f) || LogText(g) == LogText(f) + LogLine(e);
    assert k >= 2 ==> LogText(g) == LogText(f) + LogLine(e);
    if k >= 5 {
      assert e in LogEntries(g);
    } else if f.root.Some? {
      var x :| x in LogEntries(f) && x.root == RootOf(f).value;
      assert x in LogEntries(g);
    }
  }

  function TruncateLog(f: Files, keepCount: int, keepSince: int): Files
  {
    var r := Truncate(f.log, keepCount, keepSince);
    if r.Truncated? then f.(log := Some(r.log)) else f
  }

  lemma TruncationSettles(f: Files, keepCount: int, keepSince: int)
    requires Settled(f)
    ensures Settled(TruncateLog(f, keepCount, keepSince))
    ensures RootOf(TruncateLog(f, keepCount, keepSince)) == RootOf(f)
  {
    hide ReadLog, Complete, ReadRoot, Truncate;
    if f.log.Some? && (keepCount > 0 || keepSince > 0) {
      assert LogText(f) == f.log.value;
      TruncationFilters(f.log.value, keepCount, keepSince);
      var es := LogEntries(f);
      if es != [] {
        NewestIsKept(es, keepCount, keepSince);
      }
    } else {
      TruncateRefuses(f.log, keepCount, keepSince);
    }
  }

  /** Some entry of the root's address is the newest or within a bound. */
  ghost predicate RootKept(f: Files, keepCount: int, keepSince: int)
    requires RootOf(f).Some?
  {
    var es := LogEntries(f);
    exists i :: 0 <= i < |es| && es[i].root == RootOf(f).value && Keep(|es|, i, es[i].timeS, keepCount, keepSince)
  }

  /** Truncating a recoverable log, settled or not, leaves it recoverable exactly
      when some entry of the root's address is kept. */
  lemma TruncationRecoverableIff(f: Files, keepCount: int, keepSince: int)
    requires Recoverable(f) && f.root.Some? && (keepCount > 0 || keepSince > 0)
    ensures Recoverable(TruncateLog(f, keepCount, keepSince)) <==> RootKept(f, keepCount, keepSince)
  {
    hide ReadLog, Complete, ReadRoot, Truncate, Keep;
    var es, root := LogEntries(f), RootOf(f).value;
    NoLogNoEntries(f);
    TruncationFilters(f.log.value, keepCount, keepSince);
    var kept := Kept(es, |es|, keepCount, keepSince);
    assert LogEntries(TruncateLog(f, keepCount, keepSince)) == kept;
    hide Kept;
    forall e
      ensures e in kept <==> exists i :: 0 <= i < |es| && es[i] == e && Keep(|es|, i, e.timeS, keepCount, keepSince)
    {
      KeptIff(es, |es|, keepCount, keepSince, e);
    }
    if RootKept(f, keepCount, keepSince) {
      var i :| 0 <= i < |es| && es[i].root == root && Keep(|es|, i, es[i].timeS, keepCount, keepSince);
      assert es[i] in kept;
    }
  }

  lemma NoLogNoEntries(f: Files)
    ensures f.log.None? ==> LogEntries(f) == []
  {
  }

  lemma TruncateRefuses(log: Option<seq<byte>>, keepCount: int, keepSince: int)
    requires log.None? || (keepCount <= 0 && keepSince <= 0)
    ensures !Truncate(log, keepCount, keepSince).Truncated?
  {
  }

  /** Truncation trusts the newest entry to be the root.  After a commit stopped
      between its log append and its rename, keeping one entry by count drops the
      entry of the tree the root file still names. */
  lemma TruncationAfterInterruptedCommit(f: Files, e: LogEntry, k: nat)
    requires Settled(f) && f.root.Some? && Sound(e) && e.root != RootOf(f).value && 2 <= k < 5
    ensures var g := TruncateLog(CommitSteps(f, e, k), 1, 0);
            RootOf(g) == RootOf(f) && LogReads(g) && LogEntries(g) == [e]
  {
    hide ReadLog, Complete, ReadRoot, Truncate, IsHash, Committable, LogLine;
    CommittedLog(f, e);
    var c := CommitSteps(f, e, k);
    assert LogText(c) == LogText(f) + LogLine(e);
    TruncationFilters(c.log.value, 1, 0);
    var es := LogEntries(f) + [e];
    OnlyNewest(es, |es|);
  }

  lemma {:induction false} OnlyNewest(es: seq<LogEntry>, n: nat)
    requires n <= |es|
    ensures Kept(es, n, 1, 0) == if n < |es| || n == 0 then [] else [es[n - 1]]
  {
    if n > 0 {
      OnlyNewest(es, n - 1);
    }
  }

  /** The roots that a collection marks from: the log entries of every ref that
      has a root file. */
  function LogRoots(refs: seq<Files>): set<Addr>
  {
    set i, e | 0 <= i < |refs| && refs[i].root.Some? && e in LogEntries(refs[i]) :: e.root
  }

  lemma SettledIsRecoverable(f: Files)
    requires Settled(f)
    ensures Recoverable(f)
  {
    hide ReadLog, Complete, ReadRoot;
    if f.root.Some? {
      assert LogEntries(f)[|LogEntries(f)| - 1] in LogEntries(f);
    }
  }

  lemma EmptySettled()
    ensures Settled(NO_FILES)
  {
  }

  // ------------------------------------------------------------------
  // After a line that does not read
  // ------------------------------------------------------------------

  /** A commit whose line does not read, and one after it: the second is the root,
      and no reader of the log ever sees it. */
  lemma UnreadableLineHidesTheNext(f: Files, e1: LogEntry, e2: LogEntry)
    requires LogReads(f) && IsHash(e1.root) && 0 !in e1.comment && !LineReads(e1) && IsHash(e2.root)
    ensures var g1 := CommitSteps(f, e1, 5); var g := CommitSteps(g1, e2, 5);
            && RootOf(g) == Some(e2.root) && !LogReads(g)
            && LogEntries(g) == LogEntries(g1) == LogEntries(f) + ReadLog(LogLine(e1)).entries
  {
    hide ReadLog, IsHash, LineReads, LogLine, Complete, ReadRoot;
    var l, l1, l2 := LogText(f), LogLine(e1), LogLine(e2);
    LogLineIsPlain(e1);
    RootReadsBack(e2.root);
    CommittedLineReadsIff(l, e1);
    ReadAppend(l, l1);
    WholeLines(l, e1);
    BrokenHides(l + l1, l2);
  }

  lemma WholeLines(l: seq<byte>, e: LogEntry)
    ensures Complete(l + LogLine(e))
  {
  }

  /** So a collection from that log sweeps the tree just committed, unless
      something else reaches it or a grace period spares it. */
  lemma HiddenTreeIsSwept(f: Files, e1: LogEntry, e2: LogEntry, d: Depot, q: seq<Addr>, cutoff: int,
        mtimes: map<Digest, int>, a: Digest)
    requires LogReads(f) && IsHash(e1.root) && 0 !in e1.comment && !LineReads(e1) && e2.root == HexEncode(a) && IsHash(e2.root)
    requires SetOf(q) == LogRoots([CommitSteps(CommitSteps(f, e1, 5), e2, 5)]) && CanMark(d, q)
    requires !Reachable(d, LogRoots([CommitSteps(f, e1, 5)]), e2.root)
    requires !(cutoff > 0 && a in mtimes && mtimes[a] >= cutoff)
    ensures RootOf(CommitSteps(CommitSteps(f, e1, 5), e2, 5)) == Some(HexEncode(a))
    ensures a !in Swept(d.loose, Marked(d, q), cutoff, mtimes)
  {
    hide ReadLog, IsHash, LineReads, LogLine, LogReads, ReadRoot, Reachable, Marked, CanMark, Swept, HexEncode;
    UnreadableLineHidesTheNext(f, e1, e2);
    var g1 := CommitSteps(f, e1, 5);
    var g := CommitSteps(g1, e2, 5);
    assert g.root.Some? && g1.root.Some?;
    hide CommitSteps;
    SameRoots(g1, g);
    UnreachedIsSwept(d, q, cutoff, mtimes, a);
  }

  lemma RootsOfOne(f: Files, t: Addr)
    requires f.root.Some?
    ensures t in LogRoots([f]) <==> exists e :: e in LogEntries(f) && e.root == t
  {
    hide LogEntries;
    assert [f][0] == f;
    if e :| e in LogEntries(f) && e.root == t {
      assert e in LogEntries([f][0]);
    }
  }

  lemma SameRoots(f: Files, g: Files)
    requires f.root.Some? && g.root.Some? && LogEntries(f) == LogEntries(g)
    ensures LogRoots([f]) == LogRoots([g])
  {
    hide LogEntries, LogRoots;
    forall t
      ensures t in LogRoots([f]) <==> t in LogRoots([g])
    {
      RootsOfOne(f, t);
      RootsOfOne(g, t);
    }
  }

  lemma FillIsHash(c: byte)
    ensures var a := HexEncode(Fill(c)); IsHash(a) && IsLowerHash(a) && HexDecode(a) == Fill(c)
  {
    hide HexEncode, HexDecode, IsHash, IsLowerHash;
    HexDecodeOfEncode(Fill(c));
    LowerIsHash(HexEncode(Fill(c)));
  }

  lemma NoFilesRead()
    ensures LogReads(NO_FILES) && LogEntries(NO_FILES) == []
  {
  }

  lemma NotALine(e: LogEntry)
    requires IsHash(e.root) && 0 !in e.comment && !ReadLog(LogLine(e)).ok
    ensures !LineReads(e)
  {
    hide IsHash, LogLine, LineReads;
    NoFilesRead();
    assert [] + LogLine(e) == LogLine(e);
    CommittedLineReadsIff([], e);
  }

  lemma OneRoot(f: Files, root: Addr)
    requires f.root.Some? && |LogEntries(f)| == 1 && LogEntries(f)[0].root == root
    ensures LogRoots([f]) == {root}
  {
    hide LogEntries, LogRoots;
    var es := LogEntries(f);
    assert es[0] in es;
    forall t
      ensures t in LogRoots([f]) <==> t == root
    {
      RootsOfOne(f, t);
    }
  }

  lemma MarkOfMissing(d: Depot, all: set<Addr>, a: Addr)
    requires Closed(d, all) && a in all && Load(d, a).Missing?
    ensures MarkAll(d, all, NOTHING, [a]) == (Marks({a}, {}), true)
  {
    hide Load, Closed;
    assert [a][1..] == [];
    assert NOTHING.(s := NOTHING.s + {a}) == Marks({a}, {});
  }

  lemma MissingReachesItself(d: Depot, a: Addr, t: Addr)
    requires Load(d, a).Missing? && ReachesDir(d, {a}, t)
    ensures t == a
  {
    hide Open, ListObject;
    var p :| DirPath(d, p) && p[0] in {a} && p[|p| - 1] == t;
    assert |p| > 1 ==> HasChild(d, p[0], p[1], true);
  }

  /** A depot marked from an address it does not have. */
  lemma MissingRootReachesNothing(d: Depot, a: Addr, b: Addr)
    requires Load(d, a).Missing? && a != b
    ensures CanMark(d, [a]) && SetOf([a]) == {a} && !Reachable(d, {a}, b)
  {
    hide Load, MarkAll, ReachesDir, Closed;
    InUniverse(d, [a]);
    MarkOfMissing(d, Universe(d, SetOf([a])), a);
    forall u | ReachesDir(d, {a}, u)
      ensures u == a
    {
      MissingReachesItself(d, a, u);
    }
  }

  lemma OnlyObject(o: Object, a1: Addr, a2: Addr)
    requires a1 == HexEncode(Fill(1)) && a2 == HexEncode(Fill(2))
    ensures var d := Depot(map[Fill(2) := o], map[]); Load(d, a1).Missing? && Open(d, a2) == Got(o) && a1 != a2
  {
    FillIsHash(1);
    FillIsHash(2);
    FillsDiffer(1, 2);
    assert Fill(1)[0] != Fill(2)[0];
    hide HexEncode, HexDecode, IsHash, IsLowerHash, Fill, ListObject;
  }

  lemma TwoCommits(a1: Addr, a2: Addr)
    requires IsHash(a1) && IsHash(a2)
    ensures var e1 := LogEntry(a1, 0, 0, [0x78, NEWLINE, 0x79]); var e2 := LogEntry(a2, 0, 0, []);
            var f := CommitSteps(NO_FILES, e1, 5);
            && !LineReads(e1) && LogReads(NO_FILES)
            && LogRoots([f]) == {a1} && LogRoots([CommitSteps(f, e2, 5)]) == {a1}
  {
    hide ReadLog, IsHash, LineReads, LogLine, LogReads, ReadRoot, LogRoots;
    var e1, e2 := LogEntry(a1, 0, 0, [0x78, NEWLINE, 0x79]), LogEntry(a2, 0, 0, []);
    NoFilesRead();
    NewlineBreaksTheLog(a1);
    NotALine(e1);
    UnreadableLineHidesTheNext(NO_FILES, e1, e2);
    var f := CommitSteps(NO_FILES, e1, 5);
    OneRoot(f, a1);
    OneRoot(CommitSteps(f, e2, 5), a1);
  }

  /** The first commit's comment is "x", a newline, "y"; the second is an ordinary
      commit of an object the depot holds.  A collection without a grace period
      removes that object while the root file names it. */
  lemma NewlineLosesTheNextCommit(o: Object)
    ensures var f := CommitSteps(NO_FILES, LogEntry(HexEncode(Fill(1)), 0, 0, [0x78, NEWLINE, 0x79]), 5);
            var g := CommitSteps(f, LogEntry(HexEncode(Fill(2)), 0, 0, []), 5);
            var d := Depot(map[Fill(2) := o], map[]); var q := [HexEncode(Fill(1))];
            && RootOf(g) == Some(HexEncode(Fill(2))) && Open(d, HexEncode(Fill(2))) == Got(o)
            && SetOf(q) == LogRoots([g]) && CanMark(d, q) && Fill(2) !in Swept(d.loose, Marked(d, q), 0, map[])
  {
    var a1, a2 := HexEncode(Fill(1)), HexEncode(Fill(2));
    var e1, e2 := LogEntry(a1, 0, 0, [0x78, NEWLINE, 0x79]), LogEntry(a2, 0, 0, []);
    var d, q := Depot(map[Fill(2) := o], map[]), [a1];
    FillIsHash(1);
    FillIsHash(2);
    hide *;
    TwoCommits(a1, a2);
    OnlyObject(o, a1, a2);
    MissingRootReachesNothing(d, a1, a2);
    HiddenTreeIsSwept(NO_FILES, e1, e2, d, q, 0, map[], Fill(2));
  }
}
