/** Publishing signed records under a ref (cas-topic.c; cas-sign.c:
    cas_vchain_walk). */
module Topic {
  import opened Bytes
  import opened Entries
  import opened Objects
  import opened Directory
  import TreeText
  import opened Depots
  import opened Refs
  import opened Sign

  // ------------------------------------------------------------------
  // Head and publish
  // ------------------------------------------------------------------

  /** cas_topic_head: the record the root file names, verified. */
  function TopicHead(be: Backend, d: Depot, f: Files): (r: (Decoded, Addr))
  {
    if f.root.None? then (Fail(ENOTFOUND), [])
    else if f.root.value == [] then (Fail(EIO), [])
    else
      var addr := ReadRoot(f.root.value);
      if addr.None? then (Fail(ERR), []) else (LoadRecord(be, d, addr.value), addr.value)
  }

  datatype Published = Published(code: Code, d: Depot, f: Files)

  function RecordObject(rec: seq<byte>): Object { Object(VREC, rec) }

  function RecordAddress(hash: HashFn, rec: seq<byte>): Addr { HexEncode(hash(RecordObject(rec))) }

  /** What a candidate record is judged against, or why it is not judged. */
  function HeadFor(h: (Decoded, Addr)): (r: (Option<Link>, Code))
  {
    match h.0
    case Rec(v) => (Some(Link(v, h.1)), OK)
    case Fail(c) => (None, if c == ENOTFOUND then OK else c)
  }

  /** cas_topic_publish: decode, compare with the head, store, move the ref. */
  function Publish(be: Backend, hash: HashFn, d: Depot, f: Files, rec: seq<byte>, time: Int64, ns: Int32,
        comment: seq<byte>): Published
  {
    match DecodeRecord(be, rec)
    case Fail(c) => Published(c, d, f)
    case Rec(cand) =>
      var h := HeadFor(TopicHead(be, d, f));
      if h.1 != OK then Published(h.1, d, f)
      else if Succeeds(h.0, cand) != OK then Published(Succeeds(h.0, cand), d, f)
      else
        var addr := RecordAddress(hash, rec);
        Published(OK, Stored(d, hash(RecordObject(rec)), RecordObject(rec)),
                  CommitSteps(f, LogEntry(addr, time, ns, comment), 5))
  }

  class TopicStore {
    const be: Backend
    const hash: HashFn
    var depot: Depot
    const ref: Ref

    constructor (be: Backend, hash: HashFn, d: Depot)
      ensures this.be == be && this.hash == hash && depot == d && fresh(ref) && ref.F() == NO_FILES
    {
      this.be, this.hash, depot := be, hash, d;
      ref := new Ref();
    }

    /** cas_topic_publish.  A record hashes to its own address, so the admission
        check it goes through always passes. */
    method PublishRecord(rec: seq<byte>, time: Int64, ns: Int32, comment: seq<byte>) returns (code: Code)
      modifies this`depot, ref
      ensures var r := Publish(be, hash, old(depot), old(ref.F()), rec, time, ns, comment);
              code == r.code && depot == r.d && ref.F() == r.f
    {
      hide DecodeRecord, LoadRecord, HexEncode, CommitSteps, ReadRoot, HtreeVerifies;
      var cand := DecodeRecord(be, rec);
      if cand.Fail? {
        return cand.code;
      }
      var cur: Option<Link> := None;
      if ref.root.Some? {
        if ref.root.value == [] {
          return EIO;
        }
        var addr := ReadRoot(ref.root.value);
        if addr.None? {
          return ERR;
        }
        var h := LoadRecord(be, depot, addr.value);
        if h.Rec? {
          cur := Some(Link(h.v, addr.value));
        } else if h.code != ENOTFOUND {
          NeverOk(be, depot, addr.value);
          return h.code;
        }
      }
      var rc := Succeeds(cur, cand.v);
      if rc != OK {
        return rc;
      }
      var o := RecordObject(rec);
      var a := hash(o);
      if !Admissible(hash, o, a) {
        return ERR;
      }
      depot := Stored(depot, a, o);
      EncodedIsHash(a);
      var accepted, done := ref.Commit(LogEntry(HexEncode(a), time, ns, comment), 5);
      return OK;
    }

    /** cas_vchain_walk with a callback that never stops it. */
    method Walk(head: Addr, stop: nat) returns (r: Walked)
      ensures r == WalkChain(be, depot, head, stop)
    {
      hide DecodeRecord, Open, LoadRecord;
      var first := LoadRecord(be, depot, head);
      if first.Fail? {
        return Walked([], first.code);
      }
      var v, addr := first.v, head;
      var visited: seq<Link> := [];
      ghost var whole := WalkFrom(be, depot, v, addr, stop);
      assert [] + whole.visited == whole.visited;
      while true
        invariant whole == Before(visited, WalkFrom(be, depot, v, addr, stop))
        decreases v.num
      {
        ghost var done := visited;
        visited := visited + [Link(v, addr)];
        if v.num <= stop || v.prev == [] {
          return Walked(visited, OK);
        }
        var p := LoadRecord(be, depot, v.prev);
        if p.Fail? {
          return Walked(visited, if p.code == ENOTFOUND then EINCOMPLETE else p.code);
        }
        if p.v.topic != v.topic {
          return Walked(visited, ETOPIC);
        }
        if (p.v.num + 1) % U64 != v.num {
          return Walked(visited, ECHAIN);
        }
        LoadedIsSmall(be, depot, v.prev);
        BeforeBefore(done, [Link(v, addr)], WalkFrom(be, depot, p.v, v.prev, stop));
        addr := v.prev;
        v := p.v;
      }
    }
  }

  lemma NeverOk(be: Backend, d: Depot, addr: Addr)
    requires LoadRecord(be, d, addr).Fail?
    ensures LoadRecord(be, d, addr).code != OK
  {
    hide Open;
  }

  function WalkChain(be: Backend, d: Depot, head: Addr, stop: nat): Walked
  {
    match LoadRecord(be, d, head)
    case Fail(c) => Walked([], c)
    case Rec(v) => WalkFrom(be, d, v, head, stop)
  }

  /** On every depot: a walk starts at the record its head names, goes on from
      each record to the one it follows, and ends well only where it was asked to
      stop or where the chain begins; a chain broken by a missing record ends as
      incomplete. */
  lemma WalkEnds(be: Backend, d: Depot, head: Addr, stop: nat)
    ensures var w := WalkChain(be, d, head, stop);
            if w.visited == [] then LoadRecord(be, d, head) == Fail(w.code) && w.code != OK
            else
              && LoadRecord(be, d, head) == Rec(w.visited[0].v) && w.visited[0].addr == head
              && Chained(be, d, w.visited, stop)
              && EndsRight(be, d, w.visited[|w.visited| - 1].v, stop, w.code)
  {
    LoadCodes(be, d, head);
    hide LoadRecord, Open, WalkFrom, Chained, EndsRight;
    if LoadRecord(be, d, head).Rec? {
      LoadedIsSmall(be, d, head);
      WalkFromEnds(be, d, LoadRecord(be, d, head).v, head, stop);
    }
  }

  // ------------------------------------------------------------------
  // Runs
  // ------------------------------------------------------------------

  /** The records published so far, oldest first: stored, each linking to the one
      before, the last of them the ref's root. */
  ghost predicate ChainOf(be: Backend, d: Depot, f: Files, pub: seq<Link>)
  {
    && (pub == [] <==> f.root.None?)
    && (forall i :: 0 <= i < |pub| ==> pub[i].addr != [] && LoadRecord(be, d, pub[i].addr) == Rec(pub[i].v))
    && (forall i :: 0 < i < |pub| ==> Follows(pub[i - 1], pub[i].v))
    && (pub != [] ==> ReadRoot(f.root.value) == Some(pub[|pub| - 1].addr))
  }

  /** The address of this record is free, or holds it already. */
  ghost predicate Unclashed(hash: HashFn, d: Depot, o: Object)
  {
    var r := Open(d, HexEncode(hash(o)));
    r == Gone || r == Got(o)
  }

  lemma StoredOpens(hash: HashFn, d: Depot, o: Object)
    requires Unclashed(hash, d, o)
    ensures Open(Stored(d, hash(o), o), HexEncode(hash(o))) == Got(o)
  {
    hide HexEncode, HexDecode, IsHash, IsLowerHash;
    EncodedIsHash(hash(o));
    EncodedIsLower(hash(o));
    HexDecodeOfEncode(hash(o));
  }

  lemma EncodedIsLower(a: Digest)
    ensures IsLowerHash(HexEncode(a))
  {
  }

  lemma StoringKeepsRecords(be: Backend, d: Depot, a: Digest, o: Object, addr: Addr)
    requires LoadRecord(be, d, addr).Rec?
    ensures LoadRecord(be, Stored(d, a, o), addr) == LoadRecord(be, d, addr)
  {
    hide HexDecode, IsHash, IsLowerHash, DecodeRecord;
  }

  lemma NoEmptyRoot()
    ensures ReadRoot([]).None?
  {
  }

  lemma HeadIsLast(be: Backend, d: Depot, f: Files, pub: seq<Link>)
    requires ChainOf(be, d, f, pub)
    ensures HeadFor(TopicHead(be, d, f)) == (if pub == [] then None else Some(pub[|pub| - 1]), OK)
  {
    NoEmptyRoot();
    hide LoadRecord, ReadRoot;
  }

  /** Each success is a record that follows the previous head, its sequence
      number one more; each refusal leaves ref and store as they were. */
  lemma PublishOutcome(be: Backend, hash: HashFn, d: Depot, f: Files, rec: seq<byte>, time: Int64, ns: Int32,
        comment: seq<byte>, pub: seq<Link>)
    requires ChainOf(be, d, f, pub)
    ensures var r := Publish(be, hash, d, f, rec, time, ns, comment);
            && (r.code == OK <==>
                  DecodeRecord(be, rec).Rec? && (pub != [] ==> Follows(pub[|pub| - 1], DecodeRecord(be, rec).v)))
            && (r.code != OK ==> r.d == d && r.f == f)
            && (r.code == OK ==> r.d == Stored(d, hash(RecordObject(rec)), RecordObject(rec))
                                 && r.f.root == Some(RecordAddress(hash, rec) + [TreeText.NEWLINE]))
  {
    HeadIsLast(be, d, f, pub);
    hide HexEncode, DecodeRecord, TopicHead, HeadFor, ChainOf, LogLine;
    if DecodeRecord(be, rec).Rec? {
      DecodedIsSmall(be, rec);
      if pub != [] {
        AcceptedLinks(pub[|pub| - 1], DecodeRecord(be, rec).v);
      }
    } else {
      DecodeNeverOk(be, rec);
    }
  }

  /** What a publish answers: why the record does not decode, or why it does not
      succeed the head.  A success commits the address of the record with the time
      and comment given. */
  lemma PublishCodes(be: Backend, hash: HashFn, d: Depot, f: Files, rec: seq<byte>, time: Int64, ns: Int32,
        comment: seq<byte>, pub: seq<Link>)
    requires ChainOf(be, d, f, pub)
    ensures var r := Publish(be, hash, d, f, rec, time, ns, comment);
            match DecodeRecord(be, rec)
            case Fail(c) => r.code == c
            case Rec(cand) =>
              && r.code == (if pub == [] then OK else Succeeds(Some(pub[|pub| - 1]), cand))
              && (r.code == OK ==>
                    && r.f.log == Some((if f.log.Some? then f.log.value else [])
                                       + LogLine(LogEntry(HexEncode(hash(Object("vrec", rec))), time, ns, comment)))
                    && r.f.prev == (if f.root.Some? then f.root else f.prev))
  {
    HeadIsLast(be, d, f, pub);
    hide HexEncode, DecodeRecord, TopicHead, HeadFor, ChainOf, LogLine, Succeeds;
    if pub == [] {
      if DecodeRecord(be, rec).Rec? {
        NoHead(DecodeRecord(be, rec).v);
      }
    }
  }

  lemma NoHead(cand: Vrec)
    ensures Succeeds(None, cand) == OK
  {
  }

  /** What the head of a topic is: none without a root file; an error when that is
      empty or does not name an address; otherwise the record it names. */
  lemma HeadCodes(be: Backend, d: Depot, f: Files)
    ensures var h := TopicHead(be, d, f).0;
            && (f.root == None ==> h == Fail(ENOTFOUND))
            && (f.root == Some([]) ==> h == Fail(EIO))
            && (f.root.Some? && f.root.value != [] ==>
                  match ReadRoot(f.root.value)
                  case None => h == Fail(ERR)
                  case Some(a) => TopicHead(be, d, f) == (LoadRecord(be, d, a), a))
  {
    hide LoadRecord, ReadRoot;
  }

  lemma DecodedIsSmall(be: Backend, rec: seq<byte>)
    requires DecodeRecord(be, rec).Rec?
    ensures DecodeRecord(be, rec).v.num < U64
  {
    DecodedBytes(be, rec);
    hide DecodeRecord;
  }

  lemma DecodeNeverOk(be: Backend, rec: seq<byte>)
    requires DecodeRecord(be, rec).Fail?
    ensures DecodeRecord(be, rec).code != OK
  {
  }

  /** A success extends the chain by its record. */
  lemma PublishExtends(be: Backend, hash: HashFn, d: Depot, f: Files, rec: seq<byte>, time: Int64, ns: Int32,
        comment: seq<byte>, pub: seq<Link>)
    requires ChainOf(be, d, f, pub) && Unclashed(hash, d, RecordObject(rec))
    requires Publish(be, hash, d, f, rec, time, ns, comment).code == OK
    ensures DecodeRecord(be, rec).Rec?
    ensures var r := Publish(be, hash, d, f, rec, time, ns, comment);
            ChainOf(be, r.d, r.f, pub + [Link(DecodeRecord(be, rec).v, RecordAddress(hash, rec))])
  {
    PublishOutcome(be, hash, d, f, rec, time, ns, comment, pub);
    hide Publish, HexEncode, HexDecode, DecodeRecord, Open, IsHash, ReadRoot, Stored, Follows, Unclashed;
    var r := Publish(be, hash, d, f, rec, time, ns, comment);
    var o := RecordObject(rec);
    var x := Link(DecodeRecord(be, rec).v, RecordAddress(hash, rec));
    StoredOpens(hash, d, o);
    EncodedIsHash(hash(o));
    RootReadsBack(HexEncode(hash(o)));
    assert LoadRecord(be, r.d, x.addr) == Rec(x.v);
    hide LoadRecord;
    forall i | 0 <= i < |pub|
      ensures LoadRecord(be, r.d, pub[i].addr) == Rec(pub[i].v)
    {
      StoringKeepsRecords(be, d, hash(o), o, pub[i].addr);
    }
    ChainGrows(be, d, f, pub, r.d, r.f, x);
  }

  lemma ChainGrows(be: Backend, d: Depot, f: Files, pub: seq<Link>, e: Depot, g: Files, x: Link)
    requires ChainOf(be, d, f, pub) && x.addr != [] && LoadRecord(be, e, x.addr) == Rec(x.v)
    requires forall i :: 0 <= i < |pub| ==> LoadRecord(be, e, pub[i].addr) == Rec(pub[i].v)
    requires pub != [] ==> Follows(pub[|pub| - 1], x.v)
    requires g.root.Some? && ReadRoot(g.root.value) == Some(x.addr)
    ensures ChainOf(be, e, g, pub + [x])
  {
    hide LoadRecord, ReadRoot, Follows;
  }

  datatype Op = Submit(rec: seq<byte>, time: Int64, ns: Int32, comment: seq<byte>) | PutOther(a: Digest, o: Object)

  datatype State = State(d: Depot, f: Files, pub: seq<Link>)

  ghost predicate Possible(hash: HashFn, s: State, op: Op)
  {
    op.Submit? ==> Unclashed(hash, s.d, RecordObject(op.rec))
  }

  /** One call, and the records published by then. */
  ghost function After(be: Backend, hash: HashFn, s: State, op: Op): State
  {
    match op
    case PutOther(a, o) => s.(d := Stored(s.d, a, o))
    case Submit(rec, t, ns, c) =>
      var r := Publish(be, hash, s.d, s.f, rec, t, ns, c);
      State(r.d, r.f, if r.code == OK then s.pub + [Link(DecodeRecord(be, rec).v, RecordAddress(hash, rec))] else s.pub)
  }

  ghost predicate CanRun(be: Backend, hash: HashFn, s: State, ops: seq<Op>)
    decreases |ops|
  {
    ops == [] || (Possible(hash, s, ops[0]) && CanRun(be, hash, After(be, hash, s, ops[0]), ops[1..]))
  }

  ghost function RunAll(be: Backend, hash: HashFn, s: State, ops: seq<Op>): State
    decreases |ops|
  {
    if ops == [] then s else RunAll(be, hash, After(be, hash, s, ops[0]), ops[1..])
  }

  lemma OpKeepsChain(be: Backend, hash: HashFn, s: State, op: Op)
    requires ChainOf(be, s.d, s.f, s.pub) && Possible(hash, s, op)
    ensures var n := After(be, hash, s, op); ChainOf(be, n.d, n.f, n.pub) && s.pub <= n.pub
  {
    match op
    case PutOther(a, o) =>
      hide Open, DecodeRecord, ReadRoot, Stored, LoadRecord, Follows, Publish;
      forall i | 0 <= i < |s.pub|
        ensures LoadRecord(be, Stored(s.d, a, o), s.pub[i].addr) == Rec(s.pub[i].v)
      {
        StoringKeepsRecords(be, s.d, a, o, s.pub[i].addr);
      }
    case Submit(rec, t, ns, c) =>
      hide ChainOf, Publish, DecodeRecord, Unclashed;
      PublishOutcome(be, hash, s.d, s.f, rec, t, ns, c, s.pub);
      if Publish(be, hash, s.d, s.f, rec, t, ns, c).code == OK {
        PublishExtends(be, hash, s.d, s.f, rec, t, ns, c, s.pub);
      }
  }

  /** Over any run the chain only grows, one link at a time. */
  lemma {:induction false} RunKeepsChain(be: Backend, hash: HashFn, s: State, ops: seq<Op>)
    requires ChainOf(be, s.d, s.f, s.pub) && CanRun(be, hash, s, ops)
    ensures var n := RunAll(be, hash, s, ops); ChainOf(be, n.d, n.f, n.pub) && s.pub <= n.pub
    decreases |ops|
  {
    hide ChainOf, After, Possible;
    if ops != [] {
      var n := After(be, hash, s, ops[0]);
      OpKeepsChain(be, hash, s, ops[0]);
      RunKeepsChain(be, hash, n, ops[1..]);
    }
  }

  function Reverse(s: seq<Link>): (r: seq<Link>)
    ensures |r| == |s|
  {
    if s == [] then [] else [s[|s| - 1]] + Reverse(s[..|s| - 1])
  }

  lemma {:induction false} WalkDown(be: Backend, d: Depot, f: Files, pub: seq<Link>, i: nat)
    requires ChainOf(be, d, f, pub) && i < |pub|
    ensures pub[0].v.num <= pub[i].v.num
    ensures WalkFrom(be, d, pub[i].v, pub[i].addr, pub[0].v.num) == Walked(Reverse(pub[..i + 1]), OK)
  {
    hide LoadRecord, ReadRoot;
    assert pub[..i + 1][..i] == pub[..i];
    var last := pub[i];
    assert last == Link(last.v, last.addr);
    if i == 0 {
      assert pub[..1][..0] == [];
    } else {
      WalkDown(be, d, f, pub, i - 1);
      assert Follows(pub[i - 1], pub[i].v);
      RecordIsSmall(be, d, pub[i].addr);
    }
  }

  lemma RecordIsSmall(be: Backend, d: Depot, addr: Addr)
    requires LoadRecord(be, d, addr).Rec?
    ensures LoadRecord(be, d, addr).v.num < U64
  {
    LoadedIsSmall(be, d, addr);
  }

  /** The walk from the head down to the first published sequence number visits
      exactly what the run published, newest first. */
  lemma WalkVisitsWhatWasPublished(be: Backend, hash: HashFn, d: Depot, ops: seq<Op>, n: State)
    requires CanRun(be, hash, State(d, NO_FILES, []), ops) && n == RunAll(be, hash, State(d, NO_FILES, []), ops)
    requires n.pub != []
    ensures TopicHead(be, n.d, n.f) == (Rec(n.pub[|n.pub| - 1].v), n.pub[|n.pub| - 1].addr)
    ensures WalkChain(be, n.d, n.pub[|n.pub| - 1].addr, n.pub[0].v.num) == Walked(Reverse(n.pub), OK)
  {
    var s := State(d, NO_FILES, []);
    assert ChainOf(be, s.d, s.f, s.pub);
    RunKeepsChain(be, hash, s, ops);
    NoEmptyRoot();
    hide LoadRecord, ReadRoot, WalkFrom, RunAll, CanRun;
    WalkDown(be, n.d, n.f, n.pub, |n.pub| - 1);
    assert n.pub[..|n.pub|] == n.pub;
  }

  /** A head whose record is gone counts as no head at all: any record that
      decodes is then accepted, whatever its topic, sequence number or link. */
  lemma MissingHeadAcceptsAnything(be: Backend, hash: HashFn, d: Depot, f: Files, rec: seq<byte>, time: Int64,
        ns: Int32, comment: seq<byte>)
    requires f.root.Some? && ReadRoot(f.root.value).Some? && Open(d, ReadRoot(f.root.value).value) == Gone
    ensures Publish(be, hash, d, f, rec, time, ns, comment).code == OK <==> DecodeRecord(be, rec).Rec?
  {
    NoEmptyRoot();
    hide Open, ReadRoot, CommitSteps, DecodeRecord;
    if DecodeRecord(be, rec).Fail? {
      DecodeNeverOk(be, rec);
    }
  }

  /** A backend whose every signature is good. */
  function Trusting(): Backend { Backend(_ => Nuls(32), (_, _) => Nuls(64), (_, _, _) => true) }

  /** Record number 7, with no predecessor. */
  function Seventh(): Vrec { Vrec(Nuls(32), Nuls(32), 7, 0, HexEncode(Nuls(32)), []) }

  lemma SeventhDecodes()
    ensures Encodable(Seventh()) && |Trusting().sign([], SignedBytes(Seventh()))| == 64
    ensures DecodeRecord(Trusting(), RecordBytes(Trusting(), Seventh(), [])) == Rec(Seventh())
  {
    hide HexEncode, HexDecode, IsHash, IsLowerHash, SignedBytes, RecordBytes, DecodeRecord;
    LowerIsHash(HexEncode(Nuls(32)));
    RecordRoundTrip(Trusting(), Seventh(), []);
  }

  /** A ref whose head record is gone accepts record number 7 on the spot, though
      it links to nothing. */
  lemma MissingHeadAcceptsSeventh(hash: HashFn, head: Digest)
    ensures var d := Depot(map[], map[]); var f := Files(None, Some(HexEncode(head) + [TreeText.NEWLINE]), None, None);
            && |Trusting().sign([], SignedBytes(Seventh()))| == 64
            && Publish(Trusting(), hash, d, f, RecordBytes(Trusting(), Seventh(), []), 0, 0, []).code == OK
  {
    SeventhDecodes();
    LowerIsHash(HexEncode(head));
    hide HexEncode, HexDecode, IsHash, IsLowerHash, SignedBytes, RecordBytes, DecodeRecord, Trusting, Seventh, Publish, ReadRoot;
    RootReadsBack(HexEncode(head));
    var d, f := Depot(map[], map[]), Files(None, Some(HexEncode(head) + [TreeText.NEWLINE]), None, None);
    MissingHeadAcceptsAnything(Trusting(), hash, d, f, RecordBytes(Trusting(), Seventh(), []), 0, 0, []);
  }
}
