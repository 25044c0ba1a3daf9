/** An address spelled in upper case, packed and then lost to a compaction
    (cas-gc.c: cas_tree_gc_pack; cas.c: cas_open_object). */
module Spelling {
  import opened Bytes
  import opened Names
  import opened Entries
  import opened TreeText
  import opened Directory
  import opened Depots
  import opened Gc
  import opened Tour
  import opened Preserve
  import opened Pack
  import opened Packer
  import opened Compact

  // ------------------------------------------------------------------
  // The objects
  // ------------------------------------------------------------------

  /** 64 letters A. */
  function Upper(): Addr { seq(64, _ => 0x41) }

  lemma UpperDecodes()
    ensures IsHash(Upper()) && !IsLowerHash(Upper()) && HexDecode(Upper()) == Fill(0xAA)
  {
    assert forall i :: 0 <= i < 64 ==> Upper()[i] == 0x41;
    assert IsHexDigit(0x41) && !IsLowerHexDigit(Upper()[0]);
    assert HexValue(0x41) == 10;
    assert HexDecode(Upper()) == Fill(0xAA);
  }

  /** A file a, its address spelled in upper case. */
  function Named(): Entry { Entry([0x61], S_IFREG, 0, 0, 0, 0, Upper()) }

  const BLOB_KIND: seq<byte> := [0x62]
  const TREE_KIND: seq<byte> := [0x74, 0x72, 0x65, 0x65]

  /** The directory that lists it and nothing else. */
  function Text(): seq<byte> { Serialize([Named()]) }

  lemma TextLoads()
    ensures LoadText(Text()) == Some([Named()])
  {
    UpperDecodes();
    HexIsHashText(Upper());
    LetterIsValid(0x61);
    hide Upper, Serialize, HashText, ValidName;
    assert PrintableEntry(Named());
    TextRoundTrip([Named()]);
  }

  lemma TextIsShort()
    ensures |Text()| <= 100
  {
    hide Upper;
    assert Lines([Named()]) == Line(Named()) by { assert [Named()][..0] == []; }
    OctalOfRegular();
    hide Octal6;
    assert |Decimal(0)| == 1;
    assert |Upper()| == 64 by { UpperDecodes(); }
  }

  lemma OctalOfRegular()
    ensures |Octal6(S_IFREG)| == 6
  {
    assert |Digits(8, 8)| == 2;
    assert |Digits(64, 8)| == 3;
    assert |Digits(512, 8)| == 4;
    assert |Digits(4096, 8)| == 5;
    assert |Digits(32768, 8)| == 6;
  }

  /** The stored form of a short object. */
  function FileOf(kind: seq<byte>, data: seq<byte>): seq<byte>
    requires ValidKind(kind) && |data| <= 100
  {
    PutReadsBack(Squeeze(), kind, data);
    LooseFile(kind, data)
  }

  lemma FileReads(c: Codec, kind: seq<byte>, data: seq<byte>)
    requires ValidKind(kind) && |data| <= 100
    ensures ReadLoose(c, FileOf(kind, data)) == Fetched(kind, data)
    ensures LooseRaw(FileOf(kind, data)).Some? && |LooseRaw(FileOf(kind, data)).value.region| <= 100
  {
    PutReadsBack(c, kind, data);
    hide Header, ParseHeader, RegionDecode, HeaderText;
    var f := FileOf(kind, data);
    var r := LooseRaw(f);
    assert r.Some?;
    assert |f| <= 100 + BLOCK;
    assert |r.value.region| + BLOCK == |f|;
  }

  function DirFile(): seq<byte>
  {
    TextIsShort();
    FileOf(TREE_KIND, Text())
  }

  function BlobFile(): seq<byte> { FileOf(BLOB_KIND, []) }

  /** Both objects loose, with some pack on disk and mapped. */
  function Two(pack: Option<seq<byte>>): Shelf
  {
    Shelf(map[Fill(1) := DirFile(), Fill(0xAA) := BlobFile()], pack, pack)
  }

  lemma FillsApart()
    ensures Fill(1) != Fill(0xAA) && Strict([Fill(1), Fill(0xAA)]) && Strict([Fill(1)])
  {
    assert Fill(1)[0] == 1 && Fill(0xAA)[0] == 0xAA;
    assert Less(Fill(1), Fill(0xAA));
  }

  lemma TwoRead(env: Env, pack: Option<seq<byte>>, h: Digest)
    requires h in Two(pack).loose
    ensures ReadLoose(env.codec, Two(pack).loose[h]).Fetched?
    ensures LooseRaw(Two(pack).loose[h]).Some? && |LooseRaw(Two(pack).loose[h]).value.region| <= 100
    ensures h == Fill(1) ==> ReadLoose(env.codec, Two(pack).loose[h]) == Fetched(TREE_KIND, Text())
  {
    FillsApart();
    TextIsShort();
    hide Text, Fill, FileOf, ReadLoose, LooseRaw;
    if h == Fill(1) {
      FileReads(env.codec, TREE_KIND, Text());
    } else {
      FileReads(env.codec, BLOB_KIND, []);
    }
  }

  lemma UnpackedIsSane(env: Env, h: Digest)
    ensures Mapped(env, Two(None)) && SaneAt(env, Two(None), h)
  {
    hide ReadLoose, LooseRaw, DirFile, BlobFile, Fill, Text;
    if h in Two(None).loose {
      TwoRead(env, None, h);
    }
  }

  // ------------------------------------------------------------------
  // Packs of two short objects fit
  // ------------------------------------------------------------------

  lemma {:induction false} ShortBodies(items: seq<Item>)
    requires forall i :: 0 <= i < |items| ==> |items[i].raw.region| <= 100 && |items[i].raw.trailer| == BLOCK
    ensures |Bodies(items)| <= 164 * |items|
    decreases |items|
  {
    if items != [] {
      ShortBodies(items[..|items| - 1]);
    }
  }

  lemma EmitShrinks(c: Codec, policy: seq<byte> -> byte, raw: Raw)
    requires |raw.trailer| == BLOCK
    ensures |Emit(c, policy, raw).region| <= |raw.region|
  {
  }

  lemma ShortItem(env: Env, s: Shelf, h: Digest)
    requires Packable(env.check, SourcesOf(s), h) && |Source(env.check, SourcesOf(s), h).value.region| <= 100
    ensures var x := ItemFor(env.codec, env.policy, env.check, SourcesOf(s), h);
            |x.raw.region| <= 100 && |x.raw.trailer| == BLOCK
  {
    hide Emit, ParseHeader, Source;
    EmitShrinks(env.codec, env.policy, Source(env.check, SourcesOf(s), h).value);
  }

  /** Any of the two can be packed, without compressing anything. */
  lemma TwoFit(env: Env, pack: Option<seq<byte>>, hs: seq<Digest>)
    requires Mapped(env, Two(pack)) && (forall h: Digest :: h in hs ==> h in Two(pack).loose && SaneAt(env, Two(pack), h))
    requires |hs| <= 2 && Strict(hs) && Faithful(env.codec) && forall d :: env.policy(d) == CODEC_NONE
    ensures var s := Two(pack);
            Selection(env, s, hs) && AllPackable(env, s, hs) && Fits(env, s, hs) && WithinBounds(env, s, hs)
  {
    var s := Two(pack);
    hide Mapped, SaneAt, Strict, Faithful, Packable, Source, Two, Fetch, LooseRaw, ReadLoose;
    forall h: Digest | h in hs
      ensures Fetch(env, s, h) != NotThere && Packable(env.check, SourcesOf(s), h)
      ensures Source(env.check, SourcesOf(s), h).Some? && |Source(env.check, SourcesOf(s), h).value.region| <= 100
    {
      LooseIsStored(env, s, h);
      SanePacks(env, s, h);
      ShortSource(env, pack, h);
    }
    NeverCompressing(env, s, hs);
    hide InBounds;
    var items := ItemsFor(env.codec, env.policy, env.check, SourcesOf(s), hs);
    forall i | 0 <= i < |items|
      ensures |items[i].raw.region| <= 100 && |items[i].raw.trailer| == BLOCK
    {
      assert hs[i] in hs;
      ShortItem(env, s, hs[i]);
    }
    ShortBodies(items);
  }

  lemma ShortSource(env: Env, pack: Option<seq<byte>>, h: Digest)
    requires h in Two(pack).loose && Packable(env.check, SourcesOf(Two(pack)), h)
    ensures Source(env.check, SourcesOf(Two(pack)), h).Some?
    ensures |Source(env.check, SourcesOf(Two(pack)), h).value.region| <= 100
  {
    hide ReadLoose, LooseRaw, DirFile, BlobFile, Fill, Text, ParseHeader, OpenPack;
    TwoRead(env, pack, h);
  }

  // ------------------------------------------------------------------
  // The store
  // ------------------------------------------------------------------

  /** Codecs that decode what they encode, and a policy that compresses nothing. */
  ghost predicate Plain(env: Env) { Faithful(env.codec) && forall d :: env.policy(d) == CODEC_NONE }

  lemma BothPack(env: Env)
    requires Plain(env)
    ensures var s := Two(None); var hs := [Fill(1), Fill(0xAA)];
            && Mapped(env, s) && SaneAt(env, s, Fill(1)) && SaneAt(env, s, Fill(0xAA))
            && Fill(1) in s.loose && Fill(0xAA) in s.loose
            && Selection(env, s, hs) && AllPackable(env, s, hs) && Fits(env, s, hs) && WithinBounds(env, s, hs)
  {
    hide *;
    UnpackedIsSane(env, Fill(1));
    UnpackedIsSane(env, Fill(0xAA));
    FillsApart();
    InTwo(None);
    PlainParts(env);
    TwoFit(env, None, [Fill(1), Fill(0xAA)]);
  }

  lemma InTwo(pack: Option<seq<byte>>)
    ensures Fill(1) in Two(pack).loose && Fill(0xAA) in Two(pack).loose
  {
    hide Fill, DirFile, BlobFile;
  }

  /** The store after both objects were packed, their loose copies kept. */
  ghost function Packed(env: Env): Shelf
    requires Plain(env)
  {
    BothPack(env);
    Two(Some(NewPackOf(env, Two(None), [Fill(1), Fill(0xAA)])))
  }

  lemma PackedIsSane(env: Env, h: Digest)
    requires Plain(env) && (h == Fill(1) || h == Fill(0xAA))
    ensures var s := Packed(env);
            && Mapped(env, s) && SaneAt(env, s, h) && InPack(env, s.live, h) != NotThere
            && h in s.loose && Fetch(env, s, h) == ReadLoose(env.codec, s.loose[h])
  {
    BothPack(env);
    var s, hs := Two(None), [Fill(1), Fill(0xAA)];
    assert h in hs && s.loose - {} == s.loose && WithinBounds(env, s, hs) ==> InBounds(env, s, h);
    hide Faithful, DirFile, BlobFile, NewPackOf, Fill, Selection, InBounds, Fits, ReadPack, ReadLoose, AllPackable, Ordered;
    RepackStaysSane(env, s, hs, {}, h);
    NewPackReads(env, s, hs, h);
  }

  function Root(): Addr { HexEncode(Fill(1)) }

  lemma TreeObjectLoads(d: Depot, t: Addr, f: Fetched)
    requires Open(d, t) == Got(AsObject(f)) && f == Fetched(TREE_KIND, Text())
    ensures Load(d, t) == Listing([Named()])
  {
    TextLoads();
    hide Open, Text, LoadText, Named;
    assert KindOf(TREE_KIND) == TREE;
  }

  /** The root opens to the directory. */
  lemma RootLoads(env: Env)
    requires Plain(env)
    ensures Load(Abs(env, Packed(env)), Root()) == Listing([Named()])
  {
    var s := Packed(env);
    PackedIsSane(env, Fill(1));
    hide *;
    RootDecodes();
    TwoRead(env, s.disk, Fill(1));
    PackedIsTwo(env);
    OpenIsFetch(env, s, Root());
    PackOpensIt(env, s, Root());
    TreeObjectLoads(Abs(env, s), Root(), Fetch(env, s, Fill(1)));
  }

  lemma RootDecodes()
    ensures IsHash(Root()) && IsLowerHash(Root()) && HexDecode(Root()) == Fill(1)
  {
    HexDecodeOfEncode(Fill(1));
    LowerIsHash(Root());
  }

  lemma PackedIsTwo(env: Env)
    requires Plain(env)
    ensures Packed(env) == Two(Packed(env).disk)
  {
  }

  lemma PackOpensIt(env: Env, s: Shelf, t: Addr)
    requires IsHash(t) && InPack(env, s.live, HexDecode(t)) != NotThere
    ensures Opens(env, s, t)
  {
    hide HexDecode, IsHash, ReadPack;
  }

  lemma MarkOfOne(d: Depot, t: Addr, e: Entry)
    requires Load(d, t) == Listing([e]) && !IsDirEntry(e) && e.hash != t
    ensures CanMark(d, [t]) && Marked(d, [t]) == {t, e.hash}
  {
    hide Load, IsDirEntry, Closed, Universe;
    var q := [t];
    InUniverse(d, q);
    var all := Universe(d, SetOf(q));
    assert t in q;
    ClosedNames(d, all, t, [e]);
    assert [e][1..] == [] && q[1..] == [];
    var m1 := Marks({t}, {});
    assert NOTHING.(s := NOTHING.s + {t}) == m1;
    assert AddFile(m1, e.hash) == Marks({t, e.hash}, {e.hash});
    assert MarkList(d, all, m1, [e]) == MarkList(d, all, AddFile(m1, e.hash), []) == (AddFile(m1, e.hash), true);
    assert Mark(d, all, NOTHING, t) == (AddFile(m1, e.hash), true);
    assert MarkAll(d, all, NOTHING, q) == MarkAll(d, all, AddFile(m1, e.hash), []);
  }

  lemma OrderOfOne(d: Depot, t: Addr, e: Entry)
    requires Load(d, t) == Listing([e]) && !IsDirEntry(e) && e.hash != t
    ensures Order(d, [t]) == [Met(t, true), Met(e.hash, false)]
    ensures ReadsAll(d, [t])
  {
    hide Load, IsDirEntry, Closed, Universe;
    var q := [t];
    InUniverse(d, q);
    var all := Universe(d, SetOf(q));
    assert t in q;
    ClosedNames(d, all, t, [e]);
    assert [e][1..] == [] && q[1..] == [];
    assert VisitList(d, all, {t}, []) == ({t}, []);
    assert [Met(e.hash, false)] + [] == [Met(e.hash, false)];
    assert VisitList(d, all, {t}, [e]) == ({t}, [Met(e.hash, false)]);
    assert {} + {t} == {t};
    assert [Met(t, true)] + [Met(e.hash, false)] == [Met(t, true), Met(e.hash, false)];
    assert Visit(d, all, {}, t) == ({t}, [Met(t, true), Met(e.hash, false)]);
    assert VisitAll(d, all, {t}, []) == ({t}, []);
  }

  /** A directory lists an object by its upper-case address; both were packed,
      their loose copies kept.  The object opens under that name, marking
      succeeds, reads everything and marks it, everything packed reads; the
      compaction then leaves the object out of the pack and sweeps the loose copy:
      the address reached from the root opens to nothing. */
  lemma UpperCaseIsLost(env: Env)
    requires Plain(env)
    ensures AllPackable(env, Packed(env), [Fill(1)])
    ensures var s, q, hs := Packed(env), [Root()], [Fill(1)];
            var d := Abs(env, s); var e := Finished(env, s, Marked(d, q), hs, [], 0, map[]);
            && CanMark(d, q) && Marked(d, q) == {Root(), Upper()} && ReadsAll(d, q) && SaneFor(env, s, hs)
            && GcPacked(env, s, Marked(d, q), hs, [], 0, map[], e) && Fits(env, s, hs)
            && Reachable(d, SetOf(q), Upper()) && Open(d, Upper()).Got? && Open(Abs(env, e), Upper()) == Gone
  {
    hide *;
    var s, q, hs, t := Packed(env), [Root()], [Fill(1)], Upper();
    var d := Abs(env, s);
    PackedIsSane(env, Fill(1));
    PackedIsSane(env, Fill(0xAA));
    UpperDecodes();
    RootDecodes();
    FillsApart();
    PackedIsTwo(env);
    PlainParts(env);
    TwoFit(env, s.disk, hs);
    RootLoads(env);
    NamedIsFile();
    MarkOfOne(d, Root(), Named());
    OrderOfOne(d, Root(), Named());
    ReadsAllMarks(d, q);
    OnlyRootIsWanted(env, s);
    FinishedIsPacked(env, s, {Root(), t}, hs, [], 0, map[]);
    var e := Finished(env, s, {Root(), t}, hs, [], 0, map[]);
    PackedParts(env, s, {Root(), t}, hs, [], 0, map[], e);
    LostWhenUnwanted(env, s, {Root(), t}, hs, e, t);
    SaneForOne(env, s, Fill(1));
  }

  lemma PlainParts(env: Env)
    requires Plain(env)
    ensures Faithful(env.codec) && forall d :: env.policy(d) == CODEC_NONE
  {
    hide Faithful;
  }

  lemma SaneForOne(env: Env, s: Shelf, h: Digest)
    requires Mapped(env, s) && SaneAt(env, s, h)
    ensures SaneFor(env, s, [h])
  {
    hide Mapped, SaneAt;
  }

  lemma NamedIsFile()
    ensures !IsDirEntry(Named()) && Named().hash == Upper()
  {
  }

  lemma OnlyRootIsWanted(env: Env, s: Shelf)
    requires Fill(1) in s.loose
    ensures PacksWanted(env, s, {Root(), Upper()}, [Fill(1)])
  {
    UpperDecodes();
    FillsApart();
    hide Fill, Strict, PackHashes, IsHash, IsLowerHash, HexEncode, Upper, HexDecode;
    forall h: Digest
      ensures h in [Fill(1)] <==> Packer.Stored(env.check, SourcesOf(s), h) && HexEncode(h) in {Root(), Upper()}
    {
      if HexEncode(h) == Root() {
        HexDecodeOfEncode(h);
        HexDecodeOfEncode(Fill(1));
      }
    }
  }

  lemma LostWhenUnwanted(env: Env, s: Shelf, marked: set<Addr>, hs: seq<Digest>, e: Shelf, t: Addr)
    requires Mapped(env, s) && GcPacked(env, s, marked, hs, [], 0, map[], e) && hs != [] && t in marked
    requires (PackedParts(env, s, marked, hs, [], 0, map[], e); Fits(env, s, hs))
    requires IsHash(t) && HexDecode(t) !in hs && InPack(env, s.live, HexDecode(t)) != NotThere
    ensures Open(Abs(env, s), t).Got? && Open(Abs(env, e), t) == Gone
  {
    hide Mapped, GcPacked, Fits, IsHash, HexDecode, ReadPack, Abs, Open, AllPackable;
    OpenIsFetch(env, s, t);
    OpenIsFetch(env, e, t);
    OpensWhenPacked(env, s, marked, hs, [], 0, map[], e, t);
  }
}
