/** Storing, admitting and reading directory objects (cas-tree.c: cas_tree_store,
    cas_tree_load, cas_tree_lookup, htree_verify, cas_tree_check_object,
    cas_tree_put_checked). */
module Directory {
  import opened Bytes
  import opened Objects
  import opened Names
  import opened Entries
  import opened TreeText
  import opened Htree
  import opened HtreeRead

  const TREE := "tree"
  const HTREE := "htree"

  function TreeAddress(hash: HashFn, dir: seq<Entry>): Digest
  {
    hash(Object(TREE, Serialize(dir)))
  }

  // ------------------------------------------------------------------
  // Sorting
  // ------------------------------------------------------------------

  predicate NonDescending(dir: seq<Entry>)
  {
    forall i, j :: 0 <= i < j < |dir| ==> !Less(dir[j].name, dir[i].name)
  }

  predicate DistinctNames(dir: seq<Entry>)
  {
    forall i, j :: 0 <= i < j < |dir| ==> dir[i].name != dir[j].name
  }

  predicate SameEntries(a: seq<Entry>, b: seq<Entry>)
  {
    (forall e :: e in a ==> e in b) && (forall e :: e in b ==> e in a)
  }

  function InsertAt(r: seq<Entry>, k: nat, e: Entry): (s: seq<Entry>)
    requires k <= |r|
  {
    r[..k] + [e] + r[k..]
  }

  /** The library sort that cas_tree_store calls: some arrangement in name order. */
  method SortByName(dir: seq<Entry>) returns (r: seq<Entry>)
    ensures |r| == |dir| && SameEntries(r, dir)
    ensures NonDescending(r)
    ensures DistinctNames(r) <==> DistinctNames(dir)
  {
    hide Less;
    r := [];
    for n := 0 to |dir|
      invariant |r| == n && SameEntries(r, dir[..n])
      invariant NonDescending(r)
      invariant DistinctNames(r) <==> DistinctNames(dir[..n])
    {
      hide DistinctNames, NonDescending, NameCmp;
      var e := dir[n];
      var k := PlaceFor(r, e);
      InsertKeepsOrder(r, k, e);
      InsertedEntries(r, k, e);
      assert dir[..n + 1] == dir[..n] + [e];
      assert InsertAt(dir[..n], n, e) == dir[..n + 1];
      InsertDistinct(r, k, e);
      InsertDistinct(dir[..n], n, e);
      r := InsertAt(r, k, e);
    }
    assert dir[..|dir|] == dir;
  }

  /** The number of names not greater, from the front. */
  method PlaceFor(r: seq<Entry>, e: Entry) returns (k: nat)
    ensures k <= |r|
    ensures forall i :: 0 <= i < k ==> !Less(e.name, r[i].name)
    ensures k < |r| ==> Less(e.name, r[k].name)
  {
    hide Less, NameCmp;
    k := 0;
    while k < |r| && NameCmp(r[k].name, e.name) <= 0
      invariant 0 <= k <= |r|
      invariant forall i :: 0 <= i < k ==> !Less(e.name, r[i].name)
    {
      NameCmpIsLess(r[k].name, e.name);
      k := k + 1;
    }
    if k < |r| {
      NameCmpIsLess(r[k].name, e.name);
    }
  }

  lemma InsertedEntries(r: seq<Entry>, k: nat, e: Entry)
    requires k <= |r|
    ensures forall x :: x in InsertAt(r, k, e) <==> x in r || x == e
  {
    assert r == r[..k] + r[k..];
  }

  lemma InsertDistinct(r: seq<Entry>, k: nat, e: Entry)
    requires k <= |r|
    ensures DistinctNames(InsertAt(r, k, e)) <==> DistinctNames(r) && forall x :: x in r ==> x.name != e.name
  {
    var s := InsertAt(r, k, e);
    forall i | 0 <= i < |r|
      ensures r[i] == s[if i < k then i else i + 1]
    {
    }
    if DistinctNames(s) {
      forall i, j | 0 <= i < j < |r|
        ensures r[i].name != r[j].name
      {
        var a, b := if i < k then i else i + 1, if j < k then j else j + 1;
        assert s[a].name != s[b].name;
      }
      forall x | x in r
        ensures x.name != e.name
      {
        var i :| 0 <= i < |r| && r[i] == x;
        assert s[k] == e;
        assert if i < k then s[i].name != s[k].name else s[k].name != s[i + 1].name;
      }
    }
  }

  lemma InsertKeepsOrder(r: seq<Entry>, k: nat, e: Entry)
    requires NonDescending(r) && k <= |r|
    requires forall i :: 0 <= i < k ==> !Less(e.name, r[i].name)
    requires k < |r| ==> Less(e.name, r[k].name)
    ensures NonDescending(InsertAt(r, k, e))
  {
    hide Less;
    var s := InsertAt(r, k, e);
    forall i, j | 0 <= i < j < |s|
      ensures !Less(s[j].name, s[i].name)
    {
      if i == k {
        assert s[j] == r[j - 1];
        LaterIsNotLess(r, k, j - 1, e.name);
      } else if j != k {
        var a, b := if i < k then i else i - 1, if j < k then j else j - 1;
        assert s[i] == r[a] && s[j] == r[b] && a < b;
      }
    }
  }

  lemma LaterIsNotLess(r: seq<Entry>, k: nat, j: nat, name: seq<byte>)
    requires NonDescending(r) && k <= j < |r| && Less(name, r[k].name)
    ensures !Less(r[j].name, name)
  {
    hide Less;
    if Less(r[j].name, name) {
      LessTransitive(r[j].name, name, r[k].name);
      LessIrreflexive(r[k].name);
    }
  }

  lemma OrderedDistinctIsAscending(dir: seq<Entry>)
    requires NonDescending(dir)
    ensures Ascending(dir) <==> DistinctNames(dir)
    ensures Ascending(dir) <==> forall i :: 0 < i < |dir| ==> dir[i - 1].name != dir[i].name
  {
    if Ascending(dir) {
      forall i, j | 0 <= i < j < |dir|
        ensures dir[i].name != dir[j].name
      {
        LessIrreflexive(dir[i].name);
      }
    }
    if forall i :: 0 < i < |dir| ==> dir[i - 1].name != dir[i].name {
      forall i, j | 0 <= i < j < |dir|
        ensures Less(dir[i].name, dir[j].name)
      {
        NeighboursAscend(dir, i, j);
      }
    }
  }

  lemma {:induction false} NeighboursAscend(dir: seq<Entry>, i: nat, j: nat)
    requires NonDescending(dir) && i < j < |dir|
    requires forall k :: 0 < k < |dir| ==> dir[k - 1].name != dir[k].name
    ensures Less(dir[i].name, dir[j].name)
    decreases j - i
  {
    assert dir[j - 1].name != dir[j].name;
    LessTotal(dir[j - 1].name, dir[j].name);
    if i < j - 1 {
      NeighboursAscend(dir, i, j - 1);
      LessTransitive(dir[i].name, dir[j - 1].name, dir[j].name);
    }
  }

  /** A set of entries has at most one ascending arrangement. */
  lemma {:induction false} AscendingIsUnique(a: seq<Entry>, b: seq<Entry>)
    requires Ascending(a) && Ascending(b) && SameEntries(a, b)
    ensures a == b
    decreases |a|
  {
    hide Less;
    assert b == [] || b[0] in b;
    if a != [] {
      assert a[0] in b;
      SameFirst(a, b);
      TailEntries(a, b);
      AscendingIsUnique(a[1..], b[1..]);
      assert a == [a[0]] + a[1..] && b == [b[0]] + b[1..];
    }
  }

  lemma SameFirst(a: seq<Entry>, b: seq<Entry>)
    requires Ascending(a) && Ascending(b) && SameEntries(a, b) && a != [] && b != []
    ensures a[0] == b[0]
  {
    hide Less;
    assert a[0] in b && b[0] in a;
    var i :| 0 <= i < |b| && b[i] == a[0];
    var j :| 0 <= j < |a| && a[j] == b[0];
    if i > 0 && j > 0 {
      LessAsymmetric(b[0].name, b[i].name);
    }
  }

  lemma TailEntries(a: seq<Entry>, b: seq<Entry>)
    requires Ascending(a) && Ascending(b) && SameEntries(a, b) && a != [] && b != [] && a[0] == b[0]
    ensures SameEntries(a[1..], b[1..])
  {
    hide Less;
    LessIrreflexive(a[0].name);
    forall e | e in a[1..]
      ensures e in b[1..]
    {
      var i :| 0 < i < |a| && a[i] == e;
      assert e in b && e != b[0];
    }
    forall e | e in b[1..]
      ensures e in a[1..]
    {
      var i :| 0 < i < |b| && b[i] == e;
      assert e in a && e != a[0];
    }
  }

  // ------------------------------------------------------------------
  // cas_tree_store
  // ------------------------------------------------------------------

  /** The object cas_tree_store writes for a sorted directory. */
  function TreeObject(dir: seq<Entry>, useHtree: bool): Object
    requires Hashed(dir)
  {
    if useHtree then Object(HTREE, Encode(dir)) else Object(TREE, Serialize(dir))
  }

  lemma StoredForms(hash: HashFn, dir: seq<Entry>)
    requires Hashed(dir)
    ensures TreeAddress(hash, dir) == hash(Object("tree", Serialize(dir)))
    ensures TreeObject(dir, false) == Object("tree", Serialize(dir))
    ensures TreeObject(dir, true) == Object("htree", Encode(dir))
  {
    hide Serialize, Encode;
  }

  /** The first half of cas_tree_store: sort, then refuse a repeated name. */
  method SortDistinct(dir: seq<Entry>) returns (r: Option<seq<Entry>>)
    ensures r.Some? <==> DistinctNames(dir)
    ensures r.Some? ==> Ascending(r.value) && SameEntries(r.value, dir)
  {
    var d := SortByName(dir);
    hide DistinctNames, NameCmp, Less;
    OrderedDistinctIsAscending(d);
    var i := 1;
    while i < |d|
      invariant 0 < i && (i <= |d| || i == 1)
      invariant forall k :: 0 < k < i ==> d[k - 1].name != d[k].name
    {
      NameCmpIsLess(d[i - 1].name, d[i].name);
      if NameCmp(d[i - 1].name, d[i].name) == 0 {
        return None;
      }
      i := i + 1;
    }
    return Some(d);
  }

  /** cas_tree_store: address the text form of the sorted directory, and write
      either form there unless the address is taken. */
  method TreeStore(st: Store, useHtree: bool, dir: seq<Entry>) returns (r: Option<Digest>, ghost sorted: seq<Entry>)
    requires Hashed(dir)
    modifies st
    ensures r.Some? <==> DistinctNames(dir)
    ensures r.None? ==> st.objects == old(st.objects)
    ensures r.Some? ==>
              && Ascending(sorted) && SameEntries(sorted, dir) && Hashed(sorted)
              && r.value == TreeAddress(st.hash, sorted)
              && st.objects == if r.value in old(st.objects) then old(st.objects)
                               else old(st.objects)[r.value := TreeObject(sorted, useHtree)]
  {
    var s := SortDistinct(dir);
    if s.None? {
      return None, dir;
    }
    hide Encode, Serialize, DistinctNames, Ascending;
    var d := s.value;
    assert Hashed(d) by {
      assert forall i :: 0 <= i < |d| ==> d[i] in dir;
    }
    sorted := d;
    var text := TreeSerialize(d);
    if useHtree {
      var addr := st.hash(Object(TREE, text));
      if addr in st.objects {
        return Some(addr), d;
      }
      var bin := Build(d);
      st.PutAt(Object(HTREE, bin), addr);
      r := Some(addr);
    } else {
      var addr := st.Put(Object(TREE, text));
      r := Some(addr);
    }
  }

  /** The address depends on the entries alone, not on their order. */
  lemma AddressIgnoresOrder(hash: HashFn, a: seq<Entry>, b: seq<Entry>, sa: seq<Entry>, sb: seq<Entry>)
    requires SameEntries(a, b) && SameEntries(sa, a) && SameEntries(sb, b)
    requires Ascending(sa) && Ascending(sb)
    ensures sa == sb && TreeAddress(hash, sa) == TreeAddress(hash, sb)
  {
    AscendingIsUnique(sa, sb);
  }

  // ------------------------------------------------------------------
  // Verification
  // ------------------------------------------------------------------

  /** htree_verify: the entries hash to the address in text form, and building
      again from them reproduces every byte.  Parsing leaves the entries in
      ascending order, so the sort before the build changes nothing. */
  predicate HtreeVerifies(hash: HashFn, data: seq<byte>, addr: Digest)
  {
    var dir := Parse(data);
    && dir.Some?
    && TreeAddress(hash, dir.value) == addr
    && (ScannedIsCanonical(data); Encode(dir.value) == data)
  }

  lemma {:induction false} ScanKeepsCanonical(data: seq<byte>, pos: nat, end: nat, acc: seq<Entry>)
    requires end <= |data| && ScanRecords(data, pos, end, acc).Some?
    requires Canonical(acc) && LowerHashes(acc)
    ensures Canonical(ScanRecords(data, pos, end, acc).value) && LowerHashes(ScanRecords(data, pos, end, acc).value)
    decreases |data| - pos
  {
    hide Less, NameCmp, LoadAt, Unpack, WellFormed, CString;
    if pos + 8 <= end {
      var keylen := LoadAt(data, pos);
      var p := pos + 8;
      var e := Unpack(data[p + keylen..p + keylen + DATA_LEN], data[p..p + keylen]);
      if acc != [] {
        NameCmpIsLess(acc[|acc| - 1].name, e.name);
      }
      AppendAscending(acc, e);
      LowerIsHash(e.hash);
      ScanKeepsCanonical(data, p + keylen + DATA_LEN, end, acc + [e]);
    }
  }

  lemma LowerIsHash(h: seq<byte>)
    requires IsLowerHash(h)
    ensures IsHash(h)
  {
    forall i | 0 <= i < 64
      ensures IsHexDigit(h[i])
    {
      assert IsLowerHexDigit(h[i]);
    }
  }

  lemma ScannedIsCanonical(data: seq<byte>)
    requires Parse(data).Some?
    ensures Canonical(Parse(data).value) && LowerHashes(Parse(data).value) && Hashed(Parse(data).value)
  {
    hide ScanRecords, RecordsEnd, Adler, LoadAt, Canonical, LowerHashes;
    var cdbLen := |data| - FOOTER_LEN;
    EndBound(cdbLen);
    EmptyIsCanonical();
    ScanKeepsCanonical(data, HEADER_LEN, RecordsEnd(data, NBUCKETS, cdbLen % U32), []);
    CanonicalIsHashed(Parse(data).value);
  }

  lemma EmptyIsCanonical()
    ensures Canonical([]) && LowerHashes([])
  {
  }

  lemma LowerIsNormal(dir: seq<Entry>)
    requires Hashed(dir)
    ensures LowerHashes(dir) <==> Normalized(dir) == dir
  {
    hide HexEncode, HexDecode, Lower, IsLowerHash, IsHash;
    forall i | 0 <= i < |dir|
      ensures Lower(dir[i].hash) == dir[i].hash <==> IsLowerHash(dir[i].hash)
    {
      HexEncodeOfDecode(dir[i].hash);
    }
    if LowerHashes(dir) {
      assert forall i :: 0 <= i < |dir| ==> Normalized(dir)[i] == dir[i];
    } else {
      var i :| 0 <= i < |dir| && !IsLowerHash(dir[i].hash);
      assert Normalized(dir)[i].hash != dir[i].hash;
    }
  }

  /** htree_verify accepts exactly what htree_build writes for a canonical
      directory with lower-case hashes, at that directory's address. */
  lemma VerifiedHtreesAreTheBuiltOnes(hash: HashFn, data: seq<byte>, addr: Digest)
    requires |data| < U32
    ensures HtreeVerifies(hash, data, addr) <==>
            exists dir :: Canonical(dir) && LowerHashes(dir) && Hashed(dir) && data == Encode(dir) && addr == TreeAddress(hash, dir)
  {
    hide Canonical, LowerHashes, Hashed, Encode, Parse, Serialize;
    if HtreeVerifies(hash, data, addr) {
      ScannedIsCanonical(data);
    }
    if dir :| Canonical(dir) && LowerHashes(dir) && Hashed(dir) && data == Encode(dir) && addr == TreeAddress(hash, dir) {
      ParseOfEncode(dir);
      LowerIsNormal(dir);
    }
  }

  /** Listing and lookup never disagree on an admitted htree: for every name the
      probe returns exactly the entry the listing has under it. */
  lemma AdmittedHtreeAgrees(hash: HashFn, data: seq<byte>, addr: Digest, name: seq<byte>)
    requires |data| < U32 && HtreeVerifies(hash, data, addr) && 0 !in name
    ensures ProbeFor(data, name) == match Find(Parse(data).value, name)
                                    case Some(e) => Found(e)
                                    case None => Absent
  {
    hide Canonical, LowerHashes, Hashed, Encode, Parse, Serialize, ProbeFor;
    ScannedIsCanonical(data);
    var dir := Parse(data).value;
    ProbeOfEncode(dir, name);
    LowerIsNormal(dir);
    var r := Find(dir, name);
    if r.Some? {
      var i :| 0 <= i < |dir| && dir[i] == r.value;
      assert Normalized(dir)[i] == Normal(dir[i]);
    }
  }

  // ------------------------------------------------------------------
  // Admission
  // ------------------------------------------------------------------

  /** cas_tree_check_object */
  predicate Admissible(hash: HashFn, o: Object, addr: Digest)
  {
    if o.kind == HTREE then HtreeVerifies(hash, o.data, addr)
    else hash(o) == addr && (o.kind == TREE ==> TextVerifies(o.data))
  }

  /** What is admitted where: an object hashes to its address; a directory text is
      also the one its listing prints; a table is the one its listing builds, and
      its address that of the listing's text. */
  lemma AdmissibleIff(hash: HashFn, o: Object, addr: Digest)
    ensures o.kind != "tree" && o.kind != "htree" ==> (Admissible(hash, o, addr) <==> hash(o) == addr)
    ensures o.kind == "tree" ==>
              (Admissible(hash, o, addr) <==>
                 hash(o) == addr && LoadText(o.data).Some? && o.data == Serialize(LoadText(o.data).value))
    ensures o.kind == "htree" && |o.data| < U32 ==>
              (Admissible(hash, o, addr) <==>
                 exists dir :: Canonical(dir) && LowerHashes(dir) && Hashed(dir) && o.data == Encode(dir)
                               && addr == hash(Object("tree", Serialize(dir))))
  {
    hide Serialize, Encode, LoadText, Parse, Canonical, LowerHashes, Hashed, HtreeVerifies;
    if o.kind == "htree" && |o.data| < U32 {
      VerifiedHtreesAreTheBuiltOnes(hash, o.data, addr);
    }
  }

  /** cas_tree_put_checked: the one way an outside object enters the depot. */
  method PutChecked(st: Store, o: Object, addr: Digest) returns (ok: bool)
    modifies st
    ensures ok <==> Admissible(st.hash, o, addr)
    ensures st.objects == if !ok || addr in old(st.objects) then old(st.objects)
                          else old(st.objects)[addr := o]
  {
    hide Admissible;
    ok := Admissible(st.hash, o, addr);
    if ok {
      st.PutAt(o, addr);
    }
  }

  /** Two texts that hash alike are equal.  A fixed-width hash cannot promise
      this for all texts; each lemma asks it of the pair it compares. */
  predicate NoCollision(hash: HashFn, a: seq<byte>, b: seq<byte>)
  {
    hash(Object(TREE, a)) == hash(Object(TREE, b)) ==> a == b
  }

  lemma CanonicalIsPrintable(dir: seq<Entry>)
    requires Canonical(dir)
    ensures Printable(dir)
  {
    hide Less, WellFormed, HashText, IsHash;
    forall i | 0 <= i < |dir|
      ensures PrintableEntry(dir[i])
    {
      assert WellFormedEntry(dir[i]);
      HexIsHashText(dir[i].hash);
    }
  }

  lemma NormalizedIsCanonical(dir: seq<Entry>)
    requires Canonical(dir)
    ensures Canonical(Normalized(dir)) && Hashed(Normalized(dir))
  {
    hide Less, WellFormed;
    forall i | 0 <= i < |dir|
      ensures WellFormedEntry(Normalized(dir)[i])
    {
      assert WellFormedEntry(dir[i]);
      LowerKeepsHash(dir[i].hash);
    }
    CanonicalIsHashed(Normalized(dir));
  }

  lemma LowerKeepsHash(h: seq<byte>)
    requires IsHash(h)
    ensures IsHash(Lower(h)) && HexDecode(Lower(h)) == HexDecode(h)
  {
    hide HexEncode, Lower;
    HexEncodeOfDecode(h);
    HexDecodeOfEncode(HexDecode(h));
    LowerIsHash(HexEncode(HexDecode(h)));
  }

  /** What cas_tree_store writes in the text form always passes verification. */
  lemma StoredTextIsAdmissible(hash: HashFn, dir: seq<Entry>)
    requires Canonical(dir) && Hashed(dir)
    ensures Admissible(hash, TreeObject(dir, false), TreeAddress(hash, dir))
  {
    hide Serialize, LoadText;
    CanonicalIsPrintable(dir);
    TextRoundTrip(dir);
  }

  /** What it writes in the table form passes exactly when every child address
      is spelled in lower case: the text that fixes the object's address keeps
      the caller's spelling, and the listing recovered from the table does not. */
  lemma StoredHtreeIsAdmissible(hash: HashFn, dir: seq<Entry>)
    requires Canonical(dir) && Hashed(dir) && Fits(dir)
    requires NoCollision(hash, Serialize(Normalized(dir)), Serialize(dir))
    ensures Admissible(hash, TreeObject(dir, true), TreeAddress(hash, dir)) <==> LowerHashes(dir)
  {
    hide Serialize, Encode, Parse, Canonical, LowerHashes, Fits;
    ParseOfEncode(dir);
    LowerIsNormal(dir);
    NormalizedIsCanonical(dir);
    CanonicalIsPrintable(dir);
    CanonicalIsPrintable(Normalized(dir));
    if Admissible(hash, TreeObject(dir, true), TreeAddress(hash, dir)) {
      SerializeInjective(Normalized(dir), dir);
    }
  }

  /** One entry whose child address is spelled in upper case: a directory the
      store accepts and whose table form its own verifier then refuses. */
  lemma UpperCaseHtreeIsRefused(hash: HashFn)
    ensures var dir := [Entry([0x61], 0x81A4, 0, 0, 0, 0, seq(64, _ => 0x41))];
            && Canonical(dir) && Hashed(dir)
            && (NoCollision(hash, Serialize(Normalized(dir)), Serialize(dir)) ==>
                  !Admissible(hash, TreeObject(dir, true), TreeAddress(hash, dir)))
  {
    var e := Entry([0x61], 0x81A4, 0, 0, 0, 0, seq(64, _ => 0x41));
    var dir := [e];
    assert ValidName(e.name) by {
      assert e.name[HeadLen(e.name)..] == [];
    }
    assert IsHash(e.hash);
    assert WellFormedEntry(dir[0]);
    assert Canonical(dir);
    CanonicalIsHashed(dir);
    EncodedLength(dir);
    assert NameBytes(dir, 1) == 1 by { assert NameBytes(dir, 0) == 0; }
    hide Serialize, Encode, Canonical, Admissible, NameBytes;
    if NoCollision(hash, Serialize(Normalized(dir)), Serialize(dir)) {
      StoredHtreeIsAdmissible(hash, dir);
      assert !IsLowerHash(dir[0].hash) by {
        assert !IsLowerHexDigit(e.hash[0]);
      }
    }
  }

  // ------------------------------------------------------------------
  // Reading an admitted depot
  // ------------------------------------------------------------------

  datatype Loaded = Listing(dir: seq<Entry>) | Missing | WrongType | Corrupt

  /** cas_tree_load on an object found in the store */
  function ListObject(o: Object): Loaded
  {
    if o.kind == TREE then (match LoadText(o.data) case Some(d) => Listing(d) case None => Corrupt)
    else if o.kind == HTREE then (match Parse(o.data) case Some(d) => Listing(d) case None => Corrupt)
    else WrongType
  }

  /** What a directory object loads as: what its text or its table lists, in
      strictly ascending order of valid names. */
  lemma LoadsIff(o: Object)
    ensures ListObject(o) == WrongType <==> o.kind != "tree" && o.kind != "htree"
    ensures o.kind == "tree" ==>
              match LoadText(o.data)
              case Some(dir) =>
                ListObject(o) == Listing(dir) && Ascending(dir) && forall e :: e in dir ==> ValidName(e.name)
              case None => ListObject(o) == Corrupt
    ensures o.kind == "htree" ==>
              match Parse(o.data)
              case Some(dir) => ListObject(o) == Listing(dir) && Canonical(dir) && LowerHashes(dir)
              case None => ListObject(o) == Corrupt
  {
    hide Parse, LoadLines, Ascending, ValidName, Canonical, LowerHashes;
    if Parse(o.data).Some? {
      ScannedIsCanonical(o.data);
    }
    if LoadText(o.data).Some? {
      NothingAscends();
      LoadedIsAscending(o.data[1..], []);
    }
  }

  lemma NothingAscends()
    ensures Ascending([])
  {
  }

  function TreeLoad(objects: map<Digest, Object>, addr: Digest): Loaded
  {
    if addr !in objects then Missing else ListObject(objects[addr])
  }

  datatype LookedUp = Entered(entry: Entry) | NotFound | Unreadable

  function FromLookup(r: Lookup): LookedUp
  {
    match r
    case Found(e) => Entered(e)
    case Absent => NotFound
    case Malformed => Unreadable
  }

  /** cas_tree_lookup */
  function TreeLookup(objects: map<Digest, Object>, addr: Digest, name: seq<byte>): LookedUp
  {
    if addr !in objects then NotFound else
    var o := objects[addr];
    if o.kind == HTREE then FromLookup(ProbeFor(o.data, name))
    else if o.kind == TREE then FromLookup(LookupText(o.data, name))
    else Unreadable
  }

  /** Every object passed admission, and tables stay addressable. */
  predicate Admitted(hash: HashFn, objects: map<Digest, Object>)
  {
    forall a :: a in objects ==> Admissible(hash, objects[a], a) && (objects[a].kind == HTREE ==> |objects[a].data| < U32)
  }

  /** In a depot filled through admission, looking a name up in any directory
      is the same as finding it in that directory's listing. */
  lemma LookupIsListing(hash: HashFn, objects: map<Digest, Object>, addr: Digest, name: seq<byte>)
    requires Admitted(hash, objects) && addr in objects && 0 !in name
    requires objects[addr].kind == TREE || objects[addr].kind == HTREE
    ensures TreeLoad(objects, addr).Listing?
    ensures TreeLookup(objects, addr, name) == match Find(TreeLoad(objects, addr).dir, name)
                                               case Some(e) => Entered(e)
                                               case None => NotFound
  {
    hide Serialize, Encode, Parse, LoadText, LookupText, ProbeFor, Find;
    var o := objects[addr];
    if o.kind == HTREE {
      AdmittedHtreeAgrees(hash, o.data, addr, name);
    } else {
      TextLookupIsListing(o.data, name);
    }
  }

  /** The two encodings of a directory share its address: admitted at one
      address, a text and a table hold the same listing. */
  lemma FormsAgree(hash: HashFn, text: seq<byte>, bin: seq<byte>, addr: Digest)
    requires Admissible(hash, Object(TREE, text), addr) && Admissible(hash, Object(HTREE, bin), addr)
    requires NoCollision(hash, text, Serialize(Parse(bin).value))
    ensures LoadText(text) == Parse(bin)
  {
    hide Serialize, Encode, Parse, LoadText, Canonical, Printable;
    ScannedIsCanonical(bin);
    CanonicalIsPrintable(Parse(bin).value);
    TextRoundTrip(Parse(bin).value);
  }
}
