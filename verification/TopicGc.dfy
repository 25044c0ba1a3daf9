/** What a published record does to later collections (cas-topic.c:
    cas_topic_publish; cas-gc.c: mark_log_entry). */
module TopicGc {
  import opened Bytes
  import opened Entries
  import opened Objects
  import opened Directory
  import TreeText
  import opened Depots
  import opened Refs
  import opened Sign
  import opened Topic
  import opened Gc
  import opened MarkFails
  import opened History

  lemma RecordIsNoTree(d: Depot, t: Addr, rec: seq<byte>)
    requires Open(d, t) == Got(RecordObject(rec))
    ensures Refuses(d, t)
  {
    hide Open, TreeText.LoadText;
    assert VREC[0] != TREE[0] && VREC[0] != HTREE[0];
  }

  /** A successful publish leaves the record's address as the newest entry of a log
      that reads. */
  lemma PublishedIsLogged(be: Backend, hash: HashFn, d: Depot, f: Files, rec: seq<byte>, time: Int64, ns: Int32,
        comment: seq<byte>)
    requires Publish(be, hash, d, f, rec, time, ns, comment).code == OK && Recoverable(f)
    requires Sound(LogEntry(RecordAddress(hash, rec), time, ns, comment)) && Unclashed(hash, d, RecordObject(rec))
    ensures var r := Publish(be, hash, d, f, rec, time, ns, comment);
            && Settled(r.f) && RootOf(r.f) == Some(RecordAddress(hash, rec)) && r.f.root.Some?
            && Open(r.d, RecordAddress(hash, rec)) == Got(RecordObject(rec))
  {
    hide DecodeRecord, TopicHead, HeadFor, Succeeds, CommitSteps, Settled, RootOf, Recoverable, Sound, Unclashed, HexEncode,
      Open;
    DecodeIsNotOk(be, rec);
    CommitIsAtomic(f, LogEntry(RecordAddress(hash, rec), time, ns, comment), 5);
    CommittedHasRoot(f, LogEntry(RecordAddress(hash, rec), time, ns, comment));
    StoredOpens(hash, d, RecordObject(rec));
  }

  lemma DecodeIsNotOk(be: Backend, rec: seq<byte>)
    ensures DecodeRecord(be, rec).Fail? ==> DecodeRecord(be, rec).code != OK
  {
    if DecodeRecord(be, rec).Fail? {
      DecodeNeverOk(be, rec);
    }
  }

  lemma CommittedHasRoot(f: Files, e: LogEntry)
    ensures CommitSteps(f, e, 5).root.Some?
  {
    hide LogLine;
  }

  /** As long as some log has an entry of a stored record, and no directory names
      the record as a file, no collection and no compaction gets past its mark. */
  lemma LoggedRecordStopsMarking(refs: seq<Files>, x: Depot, q: seq<Addr>, addr: Addr, rec: seq<byte>)
    requires SetOf(q) == LogRoots(refs) && addr in LogRoots(refs)
    requires Open(x, addr) == Got(RecordObject(rec)) && !FileChild(x, SetOf(q), addr)
    ensures !CanMark(x, q)
  {
    hide *;
    InSetOf(q, addr);
    RecordIsNoTree(x, addr, rec);
    RootMustBeTree(x, q, addr);
  }

  /** So it is from the publish on: its ref's log has such an entry, and whatever
      the other refs are nothing is collected from the store it leaves. */
  lemma PublishedRecordStopsMarking(be: Backend, hash: HashFn, d: Depot, f: Files, rec: seq<byte>, time: Int64, ns: Int32,
        comment: seq<byte>, refs: seq<Files>, i: nat, q: seq<Addr>)
    requires Publish(be, hash, d, f, rec, time, ns, comment).code == OK && Recoverable(f)
    requires Sound(LogEntry(RecordAddress(hash, rec), time, ns, comment)) && Unclashed(hash, d, RecordObject(rec))
    requires i < |refs| && refs[i] == Publish(be, hash, d, f, rec, time, ns, comment).f && SetOf(q) == LogRoots(refs)
    requires !FileChild(Publish(be, hash, d, f, rec, time, ns, comment).d, SetOf(q), RecordAddress(hash, rec))
    ensures RecordAddress(hash, rec) in LogRoots(refs) && !CanMark(Publish(be, hash, d, f, rec, time, ns, comment).d, q)
  {
    hide *;
    PublishedIsLogged(be, hash, d, f, rec, time, ns, comment);
    RootInLogs(refs, i, RecordAddress(hash, rec));
    LoggedRecordStopsMarking(refs, Publish(be, hash, d, f, rec, time, ns, comment).d, q, RecordAddress(hash, rec), rec);
  }

  lemma RootInLogs(refs: seq<Files>, i: nat, t: Addr)
    requires i < |refs| && Settled(refs[i]) && RootOf(refs[i]) == Some(t)
    ensures t in LogRoots(refs)
  {
    hide ReadLog, ReadRoot, Complete;
    var f := refs[i];
    assert LogEntries(f)[|LogEntries(f)| - 1] in LogEntries(f);
  }

  lemma InSetOf(q: seq<Addr>, t: Addr)
    ensures t in SetOf(q) <==> t in q
  {
  }
}
