/** Writing a packfile (cas-pack.c: pack_create). */
module Packer {
  import opened Bytes
  import opened Names
  import opened Entries
  import opened TreeText
  import opened Pack
  import opened Gc

  // ------------------------------------------------------------------
  // Sorting, deduplicating and filtering the hashes
  // ------------------------------------------------------------------

  predicate Sorted(s: seq<Digest>)
  {
    forall i, j :: 0 <= i < j < |s| ==> !Less(s[j], s[i])
  }

  predicate Strict(s: seq<Digest>)
  {
    forall i, j :: 0 <= i < j < |s| ==> Less(s[i], s[j])
  }

  function Insert(r: seq<Digest>, k: nat, h: Digest): (s: seq<Digest>)
    requires k <= |r|
    ensures |s| == |r| + 1
    ensures forall x: Digest :: x in s <==> x in r || x == h
  {
    assert r == r[..k] + r[k..];
    r[..k] + [h] + r[k..]
  }

  lemma InsertSorted(r: seq<Digest>, k: nat, h: Digest)
    requires k <= |r| && Sorted(r)
    requires forall i :: 0 <= i < k ==> !Less(h, r[i])
    requires k < |r| ==> Less(h, r[k])
    ensures Sorted(Insert(r, k, h))
  {
    hide Less;
    var s := Insert(r, k, h);
    forall i, j | 0 <= i < j < |s|
      ensures !Less(s[j], s[i])
    {
      var a, b := if i < k then i else i - 1, if j < k then j else j - 1;
      if j == k {
        assert s[i] == r[i];
      } else if i == k {
        LessAsymmetric(h, r[k]);
        if b > k {
          NotLessBelow(r, k, b, h);
        }
      } else {
        assert s[i] == r[a] && s[j] == r[b];
      }
    }
  }

  lemma NotLessBelow(r: seq<Digest>, k: nat, b: nat, h: Digest)
    requires k < b < |r| && Sorted(r) && Less(h, r[k])
    ensures !Less(r[b], h)
  {
    hide Less;
    if Less(r[b], h) {
      LessTransitive(r[b], h, r[k]);
    }
  }

  /** The library sort: some arrangement in order. */
  method SortHashes(s: seq<Digest>) returns (r: seq<Digest>)
    ensures |r| == |s| && Sorted(r)
    ensures forall x: Digest :: x in r <==> x in s
  {
    hide Less, MemCmp;
    r := [];
    for n := 0 to |s|
      invariant |r| == n && Sorted(r)
      invariant forall x: Digest :: x in r <==> x in s[..n]
    {
      var h := s[n];
      var k := 0;
      while k < |r| && MemCmp(r[k], h) <= 0
        invariant 0 <= k <= |r|
        invariant forall i :: 0 <= i < k ==> !Less(h, r[i])
      {
        MemCmpIsLess(r[k], h);
        k := k + 1;
      }
      if k < |r| {
        MemCmpIsLess(r[k], h);
      }
      InsertSorted(r, k, h);
      assert s[..n + 1] == s[..n] + [h];
      r := Insert(r, k, h);
    }
    assert s[..|s|] == s;
  }

  /** The first of each run of equal hashes. */
  function Unique(s: seq<Digest>): (r: seq<Digest>)
    ensures |r| <= |s| && (s != [] ==> r != [] && r[|r| - 1] == s[|s| - 1])
  {
    if s == [] then []
    else
      var u := Unique(s[..|s| - 1]);
      if u != [] && u[|u| - 1] == s[|s| - 1] then u else u + [s[|s| - 1]]
  }

  lemma {:induction false} UniqueIsStrict(s: seq<Digest>)
    requires Sorted(s)
    ensures Strict(Unique(s)) && forall x: Digest :: x in Unique(s) <==> x in s
    decreases |s|
  {
    hide Less;
    if s != [] {
      var n := |s| - 1;
      var init := s[..n];
      UniqueIsStrict(init);
      assert s == init + [s[n]];
      var u := Unique(init);
      if u != [] && u[|u| - 1] != s[n] {
        forall i | 0 <= i < |u|
          ensures Less(u[i], s[n])
        {
          assert u[|u| - 1] == s[n - 1];
          LessTotal(u[|u| - 1], s[n]);
          if i < |u| - 1 {
            LessTransitive(u[i], u[|u| - 1], s[n]);
          }
        }
      }
    }
  }

  /** Moving element i down to the end of what is kept. */
  lemma MoveDown<T>(cur: seq<T>, s: seq<T>, kept: seq<T>, i: nat)
    requires |cur| == |s| && |kept| <= i < |s|
    requires cur[..|kept|] == kept && cur[i..] == s[i..]
    ensures cur[i] == s[i] && cur[i + 1..] == s[i + 1..]
    ensures cur[|kept| := s[i]][..|kept| + 1] == kept + [s[i]]
    ensures cur[|kept| := s[i]][i + 1..] == s[i + 1..]
  {
    assert cur[i] == cur[i..][0] == s[i..][0];
    assert cur[i + 1..] == cur[i..][1..] == s[i..][1..];
  }

  /** The deduplicating loop, in place. */
  method Dedup(a: array<Digest>) returns (unique: nat)
    requires a.Length > 0
    modifies a
    ensures unique <= a.Length && a[..unique] == Unique(old(a[..]))
  {
    hide Unique;
    ghost var s := a[..];
    unique := 1;
    UniqueFirst(s);
    for i := 1 to a.Length
      invariant 1 <= unique <= i
      invariant a[..][..unique] == Unique(s[..i])
      invariant a[..][i..] == s[i..]
    {
      ghost var cur := a[..];
      MoveDown(cur, s, Unique(s[..i]), i);
      UniqueStep(s, i);
      if a[i] != a[unique - 1] {
        if i != unique {
          a[unique] := a[i];
        }
        assert a[..] == cur[unique := s[i]];
        unique := unique + 1;
      }
    }
    assert s[..a.Length] == s;
    assert a[..unique] == a[..][..unique];
  }

  lemma UniqueFirst(s: seq<Digest>)
    requires s != []
    ensures s[..1] == Unique(s[..1])
  {
    assert s[..1][..0] == [];
  }

  lemma UniqueStep(s: seq<Digest>, i: nat)
    requires 0 < i < |s|
    ensures var u := Unique(s[..i]);
            Unique(s[..i + 1]) == if u[|u| - 1] == s[i] then u else u + [s[i]]
  {
    assert s[..i + 1][..i] == s[..i];
  }

  /** The hashes whose address is in the set. */
  function Retained(s: seq<Digest>, keep: set<seq<byte>>): (r: seq<Digest>)
    ensures |r| <= |s| && forall x: Digest :: x in r <==> x in s && HexEncode(x) in keep
  {
    hide HexEncode;
    if s == [] then []
    else
      assert s == s[..|s| - 1] + [s[|s| - 1]];
      Retained(s[..|s| - 1], keep) + if HexEncode(s[|s| - 1]) in keep then [s[|s| - 1]] else []
  }

  lemma {:induction false} RetainedIsStrict(s: seq<Digest>, keep: set<seq<byte>>)
    requires Strict(s)
    ensures Strict(Retained(s, keep))
    decreases |s|
  {
    hide Less, HexEncode;
    if s != [] {
      var n := |s| - 1;
      RetainedIsStrict(s[..n], keep);
      var r := Retained(s[..n], keep);
      forall i | 0 <= i < |r|
        ensures Less(r[i], s[n])
      {
        assert r[i] in s[..n];
        var k :| 0 <= k < n && s[..n][k] == r[i];
        assert s[k] == r[i];
      }
    }
  }

  /** The filtering loop, in place over the first n. */
  method Retain(a: array<Digest>, n: nat, keep: HashSet) returns (kept: nat)
    requires n <= a.Length
    modifies a
    ensures kept <= n && a[..kept] == Retained(old(a[..n]), keep.Elems())
  {
    hide HexEncode, HashSet.Elems, Retained;
    ghost var s, set0 := a[..n], keep.Elems();
    kept := 0;
    NoneRetained(s, set0);
    for i := 0 to n
      invariant kept <= i && keep.Elems() == set0
      invariant a[..n][..kept] == Retained(s[..i], set0)
      invariant a[..n][i..] == s[i..]
    {
      ghost var cur := a[..n];
      MoveDown(cur, s, Retained(s[..i], set0), i);
      RetainedStep(s, i, set0);
      var found := keep.Contains(HexEncode(a[i]));
      if found {
        if i != kept {
          a[kept] := a[i];
        }
        assert a[..n] == cur[kept := s[i]];
        kept := kept + 1;
      }
    }
    assert s[..n] == s;
    assert a[..kept] == a[..n][..kept];
  }

  lemma NoneRetained(s: seq<Digest>, keep: set<seq<byte>>)
    ensures Retained(s[..0], keep) == []
  {
  }

  lemma RetainedStep(s: seq<Digest>, i: nat, keep: set<seq<byte>>)
    requires i < |s|
    ensures Retained(s[..i + 1], keep) == Retained(s[..i], keep) + if HexEncode(s[i]) in keep then [s[i]] else []
    ensures Retained(s[..i], keep) + [] == Retained(s[..i], keep)
  {
    hide HexEncode;
    assert s[..i + 1][..i] == s[..i];
  }

  // ------------------------------------------------------------------
  // One object
  // ------------------------------------------------------------------

  /** Where pack_create finds objects: loose files, and the pack being replaced. */
  datatype Sources = Sources(loose: map<Digest, seq<byte>>, pack: Option<seq<byte>>)

  /** The loose copy if there is one, else the packed one. */
  function Source(check: Checksum, src: Sources, h: Digest): (r: Option<Raw>)
    ensures r.Some? ==> |r.value.trailer| == BLOCK
  {
    if h in src.loose then LooseRaw(src.loose[h])
    else if src.pack.None? then None
    else
      var n := OpenPack(check, src.pack.value);
      if n.None? then None else RawAt(src.pack.value, n.value, h)
  }

  /** What is written for an object: its region as stored, or a compressed one
      when the policy asks for it and it saves enough. */
  function Emit(c: Codec, policy: seq<byte> -> byte, raw: Raw): (r: Raw)
    requires |raw.trailer| == BLOCK
    ensures |r.trailer| == BLOCK && r.trailer[8..] == raw.trailer[8..]
    ensures raw.region != [] ==> r.region != []
  {
    if MagicOf(raw.trailer) == MAGIC_V2 || raw.region == [] then raw else
    var use := policy(raw.region);
    if use == CODEC_NONE then raw else
    var p := c.encode(use, raw.region);
    if p.None? || !(|p.value| + 1 < |raw.region| - |raw.region| / 8) then raw
    else Raw([use] + p.value, MAGIC_V2 + raw.trailer[8..])
  }

  predicate Packable(check: Checksum, src: Sources, h: Digest)
  {
    var r := Source(check, src, h);
    r.Some? && ParseHeader(r.value.trailer[8..]).Some?
  }

  function ItemFor(c: Codec, policy: seq<byte> -> byte, check: Checksum, src: Sources, h: Digest): (x: Item)
    requires Packable(check, src, h)
    ensures x.hash == h
  {
    var raw := Source(check, src, h).value;
    Item(h, Emit(c, policy, raw), ParseHeader(raw.trailer[8..]).value.1)
  }

  function ItemsFor(c: Codec, policy: seq<byte> -> byte, check: Checksum, src: Sources, hs: seq<Digest>): (items: seq<Item>)
    requires forall h: Digest :: h in hs ==> Packable(check, src, h)
    ensures |items| == |hs| && forall i :: 0 <= i < |hs| ==> items[i] == ItemFor(c, policy, check, src, hs[i])
  {
    hide Packable, ItemFor;
    seq(|hs|, i requires 0 <= i < |hs| => ItemFor(c, policy, check, src, hs[i]))
  }

  // ------------------------------------------------------------------
  // The write loop
  // ------------------------------------------------------------------

  /** Objects in hash order, then the index filled in as they went by, then the
      footer.  None when an object cannot be found or its header is bad. */
  method WritePack(c: Codec, policy: seq<byte> -> byte, check: Checksum, src: Sources, hs: seq<Digest>)
    returns (file: Option<seq<byte>>)
    ensures file.Some? <==> forall h: Digest :: h in hs ==> Packable(check, src, h)
    ensures file.Some? ==> file.value == PackFile(check, ItemsFor(c, policy, check, src, hs))
  {
    hide Source, Emit, Packable, Bodies, Index, Footer, ParseHeader;
    var out: seq<byte> := [];
    var index := new byte[BLOCK * |hs|](_ => 0);
    var offset := 0;
    ghost var items: seq<Item> := [];
    EmptyPack();
    assert index[..0] == [];
    for i := 0 to |hs|
      invariant forall k :: 0 <= k < i ==> Packable(check, src, hs[k])
      invariant |items| == i && forall k :: 0 <= k < i ==> items[k] == ItemFor(c, policy, check, src, hs[k])
      invariant out == Bodies(items) && offset == |out|
      invariant index[..BLOCK * i] == Index(items)
      invariant index[BLOCK * i..] == Nuls(BLOCK * |hs| - BLOCK * i)
    {
      var h := hs[i];
      PackableIs(check, src, h);
      var raw := Source(check, src, h);
      if raw.None? {
        assert h in hs;
        return None;
      }
      var head := ParseHeader(raw.value.trailer[8..]);
      if head.None? {
        assert h in hs;
        return None;
      }
      var x := Emit(c, policy, raw.value);
      out := out + x.region + x.trailer;
      offset := offset + |x.region|;
      ghost var item := ItemFor(c, policy, check, src, h);
      FillEntry(index, i, |hs|, h, offset, StoredSize(Item(h, x, head.value.1)), items, item);
      items := items + [item];
      offset := offset + BLOCK;
    }
    assert index[..BLOCK * |hs|] == index[..];
    ghost var all := ItemsFor(c, policy, check, src, hs);
    assert items == all;
    return Some(out + index[..] + Footer(check, index[..], |hs|));
  }

  lemma PackableIs(check: Checksum, src: Sources, h: Digest)
    ensures Packable(check, src, h) <==> Source(check, src, h).Some? && ParseHeader(Source(check, src, h).value.trailer[8..]).Some?
  {
  }

  lemma EmptyPack()
    ensures Bodies([]) == [] && Index([]) == []
  {
  }

  /** One entry of the index array, already zeroed. */
  method FillEntry(index: array<byte>, i: nat, n: nat, h: Digest, offset: nat, stored: nat, ghost items: seq<Item>,
        ghost item: Item)
    requires i < n && index.Length == BLOCK * n && |items| == i
    requires item.hash == h && offset == |Bodies(items)| + |item.raw.region| && stored == StoredSize(item)
    requires index[..BLOCK * i] == Index(items)
    requires index[BLOCK * i..] == Nuls(BLOCK * n - BLOCK * i)
    modifies index
    ensures Bodies(items + [item]) == Bodies(items) + item.raw.region + item.raw.trailer
    ensures index[..BLOCK * (i + 1)] == Index(items + [item])
    ensures index[BLOCK * (i + 1)..] == Nuls(BLOCK * n - BLOCK * (i + 1))
  {
    hide Le, Bodies, Index, Splice, IndexEntry, StoredSize;
    AppendItem(items, item);
    ghost var before := index[..];
    var p := BLOCK * i;
    Blit(index, p, h);
    StoreLe64(index, p + 32, offset);
    SpliceSplice(before, p, h, Le(offset, 8));
    StoreLe64(index, p + 40, stored);
    ghost var head := h + Le(offset, 8);
    SpliceSplice(before, p, head, Le(stored, 8));
    ghost var whole := head + Le(stored, 8);
    EntryIs(h, offset, stored);
    assert before[p..] == old(index[p..]) && before[..p] == old(index[..p]);
    FilledEntry(before, p, n, whole, IndexEntry(h, offset, stored));
    assert index[..p + BLOCK] == index[..][..p + BLOCK] && index[p + BLOCK..] == index[..][p + BLOCK..];
  }

  lemma EntryIs(h: Digest, offset: nat, stored: nat)
    ensures IndexEntry(h, offset, stored) == h + Le(offset, 8) + Le(stored, 8) + Nuls(16)
  {
  }

  lemma FilledEntry(before: seq<byte>, p: nat, n: nat, whole: seq<byte>, entry: seq<byte>)
    requires |whole| == 48 && entry == whole + Nuls(16) && |before| == BLOCK * n && p + BLOCK <= |before|
    requires before[p..] == Nuls(BLOCK * n - p)
    ensures Splice(before, p, whole)[..p + BLOCK] == before[..p] + entry
    ensures Splice(before, p, whole)[p + BLOCK..] == Nuls(BLOCK * n - p - BLOCK)
  {
    var s := Splice(before, p, whole);
    forall k | p + 48 <= k < |before|
      ensures s[k] == 0
    {
      assert before[k] == before[p..][k - p];
    }
  }

  lemma AppendItem(items: seq<Item>, item: Item)
    ensures Bodies(items + [item]) == Bodies(items) + item.raw.region + item.raw.trailer
    ensures Index(items + [item])
            == Index(items) + IndexEntry(item.hash, |Bodies(items)| + |item.raw.region|, StoredSize(item))
  {
    var s, n := items + [item], |items|;
    assert s[..n] == items;
    assert OffsetOf(s, n) == |Bodies(items)| + |item.raw.region|;
  }

  // ------------------------------------------------------------------
  // pack_create
  // ------------------------------------------------------------------

  datatype Created = Unchanged | Failed | NewPack(file: seq<byte>)

  /** The addresses a pack lists. */
  function PackHashes(check: Checksum, pack: Option<seq<byte>>): seq<Digest>
  {
    if pack.None? then [] else
    var n := OpenPack(check, pack.value);
    if n.None? then [] else IndexHashes(pack.value, n.value, n.value)
  }

  function IndexHashes(file: seq<byte>, count: nat, n: nat): seq<Digest>
    requires BLOCK * count + BLOCK <= |file| && n <= count
  {
    if n == 0 then [] else IndexHashes(file, count, n - 1) + [HashAt(file, count, n - 1)]
  }

  ghost predicate Stored(check: Checksum, src: Sources, h: Digest)
  {
    h in src.loose || h in PackHashes(check, src.pack)
  }

  /** Stored, and wanted when there is a filter. */
  ghost predicate Wanted(check: Checksum, src: Sources, keep: Option<set<seq<byte>>>, h: Digest)
  {
    Stored(check, src, h) && (keep.Some? ==> HexEncode(h) in keep.value)
  }

  ghost function KeepSet(keep: HashSet?): Option<set<seq<byte>>>
    reads keep
  {
    if keep == null then None else Some(keep.Elems())
  }

  /** pack_create: every loose and packed object that is wanted goes into a new
      pack, in hash order and once; with none wanted, or one that cannot be
      copied, the pack on disk stays. */
  method PackCreate(c: Codec, policy: seq<byte> -> byte, check: Checksum, src: Sources, order: seq<Digest>, keep: HashSet?)
    returns (r: Created, ghost hs: seq<Digest>)
    requires forall h: Digest :: h in order <==> h in src.loose
    ensures Strict(hs) && forall h: Digest :: h in hs <==> Wanted(check, src, KeepSet(keep), h)
    ensures r.Unchanged? <==> hs == []
    ensures r.Failed? <==> hs != [] && exists h: Digest :: h in hs && !Packable(check, src, h)
    ensures r.NewPack? ==>
              && (forall h: Digest :: h in hs ==> Packable(check, src, h))
              && r.file == PackFile(check, ItemsFor(c, policy, check, src, hs))
  {
    hide HexEncode, HashSet.Elems, Packable, Sorted, Strict, Unique, Retained, OpenPack;
    var all := SortHashes(order + PackHashes(check, src.pack));
    if |all| == 0 {
      EmptyStrict();
      return Unchanged, [];
    }
    var a := new Digest[|all|](i requires 0 <= i < |all| => all[i]);
    assert a[..] == all;
    var n := Dedup(a);
    UniqueIsStrict(all);
    if keep != null {
      RetainedIsStrict(a[..n], keep.Elems());
      n := Retain(a, n, keep);
      if n == 0 {
        return Unchanged, a[..n];
      }
    }
    hs := a[..n];
    var file := WritePack(c, policy, check, src, a[..n]);
    r := if file.Some? then NewPack(file.value) else Failed;
  }

  lemma EmptyStrict()
    ensures Strict([])
  {
  }

  // ------------------------------------------------------------------
  // Reading a created pack
  // ------------------------------------------------------------------

  /** Every one of these objects reads where it is copied from. */
  ghost predicate SourceDecodes(c: Codec, check: Checksum, src: Sources, h: Digest)
  {
    Source(check, src, h).Some? && Decode(c, Source(check, src, h).value).Fetched?
  }

  lemma ReadIsPackable(c: Codec, check: Checksum, src: Sources, h: Digest)
    requires SourceDecodes(c, check, src, h)
    ensures Packable(check, src, h)
  {
    hide Source, ParseHeader, RegionDecode;
  }

  lemma ReadIsWellStored(c: Codec, policy: seq<byte> -> byte, check: Checksum, src: Sources, h: Digest)
    requires Packable(check, src, h) && SourceDecodes(c, check, src, h)
    ensures WellStored(ItemFor(c, policy, check, src, h))
  {
    hide Source, ParseHeader, Emit;
    var raw := Source(check, src, h).value;
    if Emit(c, policy, raw).region == [] {
      assert raw.region == [];
    }
  }

  /** The created pack has the objects packed and no other, and gives back each
      whose source decodes exactly as its emitted form decodes. */
  lemma CreatedPackReads(c: Codec, policy: seq<byte> -> byte, check: Checksum, src: Sources, hs: seq<Digest>, h: Digest)
    requires Strict(hs)
    requires forall x: Digest :: x in hs ==> Packable(check, src, x)
    requires |PackFile(check, ItemsFor(c, policy, check, src, hs))| < U64
    ensures var file := PackFile(check, ItemsFor(c, policy, check, src, hs));
            && (h in hs <==> ReadPack(c, check, file, h) != NotThere)
            && (h in hs && SourceDecodes(c, check, src, h) ==>
                  ReadPack(c, check, file, h) == Decode(c, Emit(c, policy, Source(check, src, h).value)))
  {
    hide PackFile, ReadPack, Source, Decode, Emit, Packable, WellStored, Less, ItemFor;
    var items := ItemsFor(c, policy, check, src, hs);
    assert AscendingItems(items);
    if h in hs {
      var i :| 0 <= i < |hs| && hs[i] == h;
      PackedLookup(c, check, items, i);
      if SourceDecodes(c, check, src, h) {
        ReadIsWellStored(c, policy, check, src, h);
        ItemRaw(c, policy, check, src, h);
      }
    } else {
      UnpackedLookup(c, check, items, h);
    }
  }

  lemma ItemRaw(c: Codec, policy: seq<byte> -> byte, check: Checksum, src: Sources, h: Digest)
    requires Packable(check, src, h)
    ensures Source(check, src, h).Some?
    ensures ItemFor(c, policy, check, src, h).raw == Emit(c, policy, Source(check, src, h).value)
  {
  }

  /** Compressing an object on its way into a pack keeps it readable exactly when
      the payload is inside the decoder's bounds. */
  lemma EmittedReadsBack(c: Codec, policy: seq<byte> -> byte, raw: Raw)
    requires Faithful(c) && |raw.trailer| == BLOCK && Decode(c, raw).Fetched?
    ensures var e := Emit(c, policy, raw);
            Decode(c, e) == Decode(c, raw) <==> e == raw || Inflatable(|e.region| - 1, |Decode(c, raw).data|)
  {
    hide ParseHeader;
    var e := Emit(c, policy, raw);
    if e != raw {
      assert e.region[1..] == c.encode(policy(raw.region), raw.region).value;
      assert MagicOf(e.trailer) == MAGIC_V2;
    }
  }

  /** A codec that squeezes one run of zeros into one byte and refuses the rest. */
  function Squeeze(): Codec
  {
    Codec((tag, d) => if d == Nuls(1000) then Some([1]) else None,
          (tag, p, n) => if p == [1] && n == 1000 then Some(Nuls(1000)) else None)
  }

  lemma SqueezeIsFaithful()
    ensures Faithful(Squeeze())
  {
    hide Nuls;
  }

  lemma ThousandTrailer(kind: seq<byte>)
    requires ValidKind(kind)
    ensures |HeaderText(kind, 1000)| <= 56
    ensures var t := MAGIC_V1 + Header(kind, 1000);
            |t| == BLOCK && MagicOf(t) == MAGIC_V1 && ParseHeader(t[8..]) == Some((kind, 1000))
  {
    hide Digits, ParseHeader;
    Pow10Values();
    DigitsAreFew(1000, 10);
    HeaderRoundTrip(kind, 1000);
    hide Header, HeaderText;
    var t := MAGIC_V1 + Header(kind, 1000);
    assert t[..8] == MAGIC_V1 && t[8..] == Header(kind, 1000);
  }

  lemma SqueezedIsRefused(kind: seq<byte>, t: seq<byte>)
    requires |t| == BLOCK && MagicOf(t) == MAGIC_V1 && ParseHeader(t[8..]) == Some((kind, 1000))
    ensures var raw := Raw(Nuls(1000), t);
            && Decode(Squeeze(), raw) == Fetched(kind, Nuls(1000))
            && Decode(Squeeze(), Emit(Squeeze(), _ => 0x5A, raw)) == Bad
  {
    hide ParseHeader, Nuls;
    var e := Emit(Squeeze(), _ => 0x5A, Raw(Nuls(1000), t));
    assert e == Raw([0x5A] + [1], MAGIC_V2 + t[8..]);
    assert e.trailer[8..] == t[8..] && e.trailer[..8] == MAGIC_V2;
  }

  /** A thousand zeros as any store keeps them loose. */
  function ThousandZeros(kind: seq<byte>): (r: Raw)
    requires ValidKind(kind)
    ensures |r.trailer| == BLOCK
  {
    ThousandTrailer(kind);
    Raw(Nuls(1000), MAGIC_V1 + Header(kind, 1000))
  }

  /** A codec that decodes what it encodes, and an object that it encodes in one
      byte: read before packing, refused after. */
  lemma PackingCanMakeUnreadable(kind: seq<byte>) returns (raw: Raw)
    requires ValidKind(kind)
    ensures Faithful(Squeeze()) && |raw.trailer| == BLOCK
    ensures Decode(Squeeze(), raw) == Fetched(kind, Nuls(1000))
    ensures Decode(Squeeze(), Emit(Squeeze(), _ => 0x5A, raw)) == Bad
    ensures raw == ThousandZeros(kind)
  {
    hide *;
    SqueezeIsFaithful();
    raw := ThousandZeros(kind);
    ThousandIsLoose(kind);
    SqueezedIsRefused(kind, raw.trailer);
  }

  lemma ThousandIsLoose(kind: seq<byte>)
    requires ValidKind(kind)
    ensures var r := ThousandZeros(kind);
            r == Raw(Nuls(1000), r.trailer) && MagicOf(r.trailer) == MAGIC_V1 && ParseHeader(r.trailer[8..]) == Some((kind, 1000))
  {
    hide Header, HeaderText, ParseHeader, Nuls;
    ThousandTrailer(kind);
  }
}
