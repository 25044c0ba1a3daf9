/** The canonical text form of a directory (cas-tree.c: tree_serialize,
    parse_entry, tree_text_load, tree_text_lookup, tree_text_verify). */
module TreeText {
  import opened Bytes
  import opened Names
  import opened Entries

  const PERCENT: byte := 0x25
  const SPACE: byte := 0x20
  const NEWLINE: byte := 0x0A

  // ------------------------------------------------------------------
  // Printing numbers
  // ------------------------------------------------------------------

  /** The radixes the format prints in. */
  type Radix = r: nat | r == 8 || r == 10 witness 10

  function Quot(n: nat, radix: Radix): nat { if radix == 8 then n / 8 else n / 10 }

  function Rem(n: nat, radix: Radix): (d: nat)
    ensures d < radix
  {
    if radix == 8 then n % 8 else n % 10
  }

  function Shift(acc: nat, radix: Radix, d: nat): nat
  {
    if radix == 8 then acc * 8 + d else acc * 10 + d
  }

  function Digits(n: nat, radix: Radix): (r: seq<byte>)
    ensures |r| > 0
    ensures forall i :: 0 <= i < |r| ==> 0x30 <= r[i] < 0x30 + radix
    decreases n
  {
    if n < radix then [0x30 + n] else Digits(Quot(n, radix), radix) + [0x30 + Rem(n, radix)]
  }

  /** %d */
  function Decimal(z: int): (r: seq<byte>)
    ensures |r| > 0
  {
    if z < 0 then [0x2D] + Digits(-z, 10) else Digits(z, 10)
  }

  function Zeros(n: nat): (r: seq<byte>)
    ensures |r| == n && forall i :: 0 <= i < n ==> r[i] == 0x30
  {
    seq(n, _ => 0x30)
  }

  /** %06o */
  function Octal6(n: nat): (r: seq<byte>)
    ensures |r| > 0
    ensures forall i :: 0 <= i < |r| ==> 0x30 <= r[i] < 0x38
  {
    var d := Digits(n, 8);
    Zeros(if |d| < 6 then 6 - |d| else 0) + d
  }

  /** The fields of a line before its hash, in print order. */
  function Head(e: Entry): (r: seq<byte>)
  {
    Octal6(e.mode) + [SPACE] + Decimal(e.uid) + [SPACE] + Decimal(e.gid) + [SPACE]
    + Decimal(e.mtimeS) + [SPACE] + Decimal(e.mtimeNs) + [SPACE]
  }

  function Line(e: Entry): (r: seq<byte>)
    ensures |r| > 0
  {
    Head(e) + e.hash + [SPACE] + e.name + [NEWLINE]
  }

  function Lines(dir: seq<Entry>): seq<byte>
  {
    if dir == [] then [] else Lines(dir[..|dir| - 1]) + Line(dir[|dir| - 1])
  }

  function Serialize(dir: seq<Entry>): seq<byte>
  {
    [PERCENT] + Lines(dir)
  }

  lemma OneDigit(d: nat, radix: Radix)
    requires d < radix
    ensures Digits(d, radix) == [0x30 + d]
  {
  }

  lemma DigitsNext(q: nat, d: nat, radix: Radix)
    requires 0 < q && d < radix
    ensures Digits(if radix == 8 then q * 8 + d else q * 10 + d, radix) == Digits(q, radix) + [0x30 + d]
  {
  }

  lemma DigitAnswers()
    ensures Digits(0x81A4, 8) == [0x31] + [0x30] + [0x30] + [0x36] + [0x34] + [0x34]
    ensures Digits(0x41ED, 8) == [0x34] + [0x30] + [0x37] + [0x35] + [0x35]
    ensures Digits(86400, 10) == [0x38] + [0x36] + [0x34] + [0x30] + [0x30]
  {
    hide *;
    OneDigit(1, 8);
    DigitsNext(1, 0, 8);
    DigitsNext(8, 0, 8);
    DigitsNext(64, 6, 8);
    DigitsNext(518, 4, 8);
    DigitsNext(4148, 4, 8);
    OneDigit(4, 8);
    DigitsNext(4, 0, 8);
    DigitsNext(32, 7, 8);
    DigitsNext(263, 5, 8);
    DigitsNext(2109, 5, 8);
    OneDigit(8, 10);
    DigitsNext(8, 6, 10);
    DigitsNext(86, 4, 10);
    DigitsNext(864, 0, 10);
    DigitsNext(8640, 0, 10);
  }

  /** The numbers of a line: the mode in octal, six digits at least, the others in
      decimal. */
  lemma NumberAnswers()
    ensures Octal6(0x81A4) == [0x31, 0x30, 0x30, 0x36, 0x34, 0x34]      // 100644
    ensures Octal6(0x41ED) == [0x30, 0x34, 0x30, 0x37, 0x35, 0x35]      // 040755
    ensures Decimal(86400) == [0x38, 0x36, 0x34, 0x30, 0x30]
    ensures Decimal(-1) == [0x2D, 0x31] && Decimal(0) == [0x30]
  {
    DigitAnswers();
    OneDigit(1, 10);
    OneDigit(0, 10);
    hide Digits;
  }

  /** The line of a file: "100644 -1 0 86400 0 ", its address, a space, its
      name and a newline; a directory text starts with a percent sign. */
  lemma LineAnswer(name: seq<byte>, hash: seq<byte>)
    ensures var e := Entry(name, 0x81A4, -1, 0, 86400, 0, hash);
            && Line(e) == [0x31, 0x30, 0x30, 0x36, 0x34, 0x34] + [0x20] + [0x2D, 0x31] + [0x20] + [0x30] + [0x20]
                          + [0x38, 0x36, 0x34, 0x30, 0x30] + [0x20] + [0x30] + [0x20]
                          + hash + [0x20] + name + [0x0A]
            && Serialize([e]) == [0x25] + Line(e) && Serialize([]) == [0x25]
  {
    NumberAnswers();
    hide Octal6, Decimal;
    var e := Entry(name, 0x81A4, -1, 0, 86400, 0, hash);
    assert [e][..0] == [] && [e][0] == e;
    hide Line;
    assert Lines([e]) == Lines([e][..0]) + Line(e);
    assert Lines([]) + Line(e) == Line(e);
  }

  /** tree_serialize: measure, allocate, then print each line in place. */
  method TreeSerialize(dir: seq<Entry>) returns (text: seq<byte>)
    ensures text == Serialize(dir)
  {
    hide Line;
    var bodylen := 1;
    for i := 0 to |dir|
      invariant bodylen == 1 + |Lines(dir[..i])|
    {
      assert dir[..i + 1][..i] == dir[..i];
      bodylen := bodylen + |Line(dir[i])|;
    }
    assert dir[..|dir|] == dir;
    var body := new byte[bodylen];
    body[0] := PERCENT;
    var pos := 1;
    for i := 0 to |dir|
      invariant pos == 1 + |Lines(dir[..i])| <= bodylen
      invariant body[..pos] == [PERCENT] + Lines(dir[..i])
    {
      assert dir[..i + 1][..i] == dir[..i];
      LinesMonotone(dir, i + 1);
      ghost var before := body[..];
      var line := Line(dir[i]);
      assert before[..pos] == body[..pos];
      SpliceExtends(before, [PERCENT] + Lines(dir[..i]), line);
      Blit(body, pos, line);
      pos := pos + |line|;
      assert body[..pos] == body[..][..pos];
    }
    assert body[..] == body[..pos];
    text := body[..];
  }

  lemma {:induction false} LinesMonotone(dir: seq<Entry>, i: nat)
    requires i <= |dir|
    ensures |Lines(dir[..i])| <= |Lines(dir)|
    decreases |dir| - i
  {
    if i < |dir| {
      assert dir[..i + 1][..i] == dir[..i];
      LinesMonotone(dir, i + 1);
    } else {
      assert dir[..i] == dir;
    }
  }

  // ------------------------------------------------------------------
  // Scanning numbers: sscanf("%o %d %d %lld %d %n")
  // ------------------------------------------------------------------

  predicate IsSpace(c: byte) { c == 0x20 || 0x09 <= c <= 0x0D }

  predicate IsDigit(c: byte, radix: Radix) { 0x30 <= c && (c as int) < 0x30 + radix }

  function SkipSpace(s: seq<byte>, i: nat): (j: nat)
    requires i <= |s|
    ensures i <= j <= |s|
    decreases |s| - i
  {
    if i < |s| && IsSpace(s[i]) then SkipSpace(s, i + 1) else i
  }

  function ScanDigits(s: seq<byte>, i: nat, radix: Radix, acc: nat): (r: (nat, nat))
    requires i <= |s|
    ensures i <= r.1 <= |s|
    decreases |s| - i
  {
    if i < |s| && IsDigit(s[i], radix)
    then ScanDigits(s, i + 1, radix, Shift(acc, radix, s[i] as int - 0x30))
    else (acc, i)
  }

  /** One numeric conversion: spaces, an optional sign, at least one digit.
      Returns the value and the offset after it. */
  function ScanNumber(s: seq<byte>, i: nat, radix: Radix): (r: Option<(int, nat)>)
    requires i <= |s|
    ensures r.Some? ==> i <= r.value.1 <= |s|
  {
    var j := SkipSpace(s, i);
    var signed := j < |s| && (s[j] == 0x2D || s[j] == 0x2B);
    var k := if signed then j + 1 else j;
    var (v, end) := ScanDigits(s, k, radix, 0);
    if end == k then None
    else
      Some((if signed && s[j] == 0x2D then -(v as int) else v as int, end))
  }

  function Clamp(v: int, lo: int, hi: int): int
  {
    if v < lo then lo else if v > hi then hi else v
  }

  /** strtol then truncation to int, as the C library stores %d. */
  function ToInt32(v: int): Int32
  {
    var w := Clamp(v, -0x8000_0000_0000_0000, 0x7FFF_FFFF_FFFF_FFFF) % U32;
    if w < 0x8000_0000 then w else w - U32
  }

  function ToInt64(v: int): Int64
  {
    Clamp(v, -0x8000_0000_0000_0000, 0x7FFF_FFFF_FFFF_FFFF)
  }

  /** strtoul then truncation to unsigned int, as it stores %o. */
  function ToUnsigned32(v: int): (r: nat)
    ensures r < U32
  {
    (if -(U64 as int) < v < U64 then v else U64 - 1) % U32
  }

  // ------------------------------------------------------------------
  // Parsing
  // ------------------------------------------------------------------

  datatype Fields = Fields(mode: int, uid: int, gid: int, mtimeS: int, mtimeNs: int, n: nat)

  /** The sscanf call of parse_entry: five numbers, then the offset after the
      spaces that follow.  s is everything from the start of the line on. */
  function ScanFields(s: seq<byte>): (r: Option<Fields>)
    ensures r.Some? ==> r.value.n <= |s|
  {
    var m := ScanNumber(s, 0, 8);
    if m.None? then None else
    var u := ScanNumber(s, m.value.1, 10);
    if u.None? then None else
    var g := ScanNumber(s, u.value.1, 10);
    if g.None? then None else
    var t := ScanNumber(s, g.value.1, 10);
    if t.None? then None else
    var ns := ScanNumber(s, t.value.1, 10);
    if ns.None? then None else
    Some(Fields(m.value.0, u.value.0, g.value.0, t.value.0, ns.value.0, SkipSpace(s, ns.value.1)))
  }

  /** parse_entry.  sscanf does not know where the line ends, so only the
      length test bounds what it consumed. */
  function ParseEntry(s: seq<byte>, linelen: nat): (r: Option<Entry>)
    requires linelen <= |s|
    ensures r.Some? ==> r.value.mode < U32
  {
    var f := ScanFields(s);
    if f.None? then None else
    var n := f.value.n;
    if n + 64 + 2 > linelen then None else
    if s[n + 64] != SPACE then None else
    var name := s[n + 65..linelen];
    if |name| > NAME_MAX then None else
    Some(Entry(CString(name), ToUnsigned32(f.value.mode), ToInt32(f.value.uid), ToInt32(f.value.gid),
               ToInt64(f.value.mtimeS), ToInt32(f.value.mtimeNs), CString(s[n..n + 64])))
  }

  /** The offset of the first newline, |s| when absent. */
  function NewlineAt(s: seq<byte>): (n: nat)
    ensures n <= |s|
    ensures n < |s| ==> s[n] == NEWLINE
    ensures forall i :: 0 <= i < n ==> s[i] != NEWLINE
  {
    Memchr(s, NEWLINE)
  }

  /** The rest of a listing whose first entries are acc. */
  function LoadLines(s: seq<byte>, acc: seq<Entry>): (r: Option<seq<Entry>>)
    decreases |s|
  {
    if s == [] then Some(acc) else
    var nl := NewlineAt(s);
    if nl == |s| then None else
    var e := ParseEntry(s, nl);
    if e.None? then None else
    if acc != [] && NameCmp(acc[|acc| - 1].name, e.value.name) >= 0 then None else
    if !ValidName(e.value.name) then None else
    LoadLines(s[nl + 1..], acc + [e.value])
  }

  function LoadText(data: seq<byte>): (r: Option<seq<Entry>>)
  {
    if data == [] || data[0] != PERCENT then None else LoadLines(data[1..], [])
  }

  /** tree_text_load */
  method TreeTextLoad(data: seq<byte>) returns (r: Option<seq<Entry>>)
    ensures r == LoadText(data)
  {
    hide ParseEntry, NameCmp, NewlineAt, ValidName;
    if |data| < 1 || data[0] != PERCENT {
      return None;
    }
    var dir := [];
    var p := 1;
    while p < |data|
      invariant 1 <= p <= |data|
      invariant LoadText(data) == LoadLines(data[p..], dir)
    {
      var nl := NewlineAt(data[p..]);
      if nl == |data| - p {
        return None;
      }
      var e := ParseEntry(data[p..], nl);
      if e.None? {
        return None;
      }
      if |dir| > 0 && NameCmp(dir[|dir| - 1].name, e.value.name) >= 0 {
        return None;
      }
      if !ValidName(e.value.name) {
        return None;
      }
      assert data[p..][nl + 1..] == data[p + nl + 1..];
      dir := dir + [e.value];
      p := p + nl + 1;
    }
    return Some(dir);
  }

  datatype Lookup = Found(entry: Entry) | Absent | Malformed

  function LookupLines(s: seq<byte>, prev: Option<Entry>, name: seq<byte>): (r: Lookup)
    decreases |s|
  {
    if s == [] then Absent else
    var nl := NewlineAt(s);
    if nl == |s| then Malformed else
    var e := ParseEntry(s, nl);
    if e.None? then Malformed else
    if prev.Some? && NameCmp(prev.value.name, e.value.name) >= 0 then Malformed else
    var c := NameCmp(e.value.name, name);
    if c == 0 then Found(e.value)
    else if c > 0 then Absent
    else LookupLines(s[nl + 1..], e, name)
  }

  function LookupText(data: seq<byte>, name: seq<byte>): (r: Lookup)
  {
    if data == [] || data[0] != PERCENT then Malformed else LookupLines(data[1..], None, name)
  }

  /** tree_text_lookup: stops at the match or at the first greater name. */
  method TreeTextLookup(data: seq<byte>, name: seq<byte>) returns (r: Lookup)
    ensures r == LookupText(data, name)
  {
    hide ParseEntry, NameCmp, NewlineAt;
    if |data| < 1 || data[0] != PERCENT {
      return Malformed;
    }
    var p := 1;
    var prev: Option<Entry> := None;
    while p < |data|
      invariant 1 <= p <= |data|
      invariant LookupText(data, name) == LookupLines(data[p..], prev, name)
    {
      var nl := NewlineAt(data[p..]);
      if nl == |data| - p {
        return Malformed;
      }
      var e := ParseEntry(data[p..], nl);
      if e.None? {
        return Malformed;
      }
      if prev.Some? && NameCmp(prev.value.name, e.value.name) >= 0 {
        return Malformed;
      }
      var c := NameCmp(e.value.name, name);
      if c == 0 {
        return Found(e.value);
      }
      if c > 0 {
        return Absent;
      }
      assert data[p..][nl + 1..] == data[p + nl + 1..];
      prev := e;
      p := p + nl + 1;
    }
    return Absent;
  }

  // ------------------------------------------------------------------
  // Parsing undoes printing
  // ------------------------------------------------------------------

  function Fold(acc: nat, ds: seq<byte>, radix: Radix): nat
    requires forall i :: 0 <= i < |ds| ==> ds[i] >= 0x30
  {
    if ds == [] then acc
    else Shift(Fold(acc, ds[..|ds| - 1], radix), radix, ds[|ds| - 1] as int - 0x30)
  }

  lemma {:induction false} FoldDigits(n: nat, radix: Radix)
    ensures Fold(0, Digits(n, radix), radix) == n
    decreases n
  {
    var d := Digits(n, radix);
    if n < radix {
      assert d[..0] == [];
    } else {
      FoldDigits(Quot(n, radix), radix);
      assert d[..|d| - 1] == Digits(Quot(n, radix), radix);
    }
  }

  lemma {:induction false} FoldZeros(k: nat, ds: seq<byte>, radix: Radix)
    requires forall i :: 0 <= i < |ds| ==> ds[i] >= 0x30
    ensures Fold(0, Zeros(k) + ds, radix) == Fold(0, ds, radix)
    decreases |ds|, k
  {
    var z := Zeros(k) + ds;
    if ds != [] {
      assert z[..|z| - 1] == Zeros(k) + ds[..|ds| - 1];
      FoldZeros(k, ds[..|ds| - 1], radix);
    } else if k > 0 {
      assert z[..|z| - 1] == Zeros(k - 1) + ds;
      FoldZeros(k - 1, ds, radix);
    }
  }

  /** Scanning a run of digits followed by a non-digit reads exactly the run. */
  lemma {:induction false} ScanRun(s: seq<byte>, i: nat, ds: seq<byte>, k: nat, radix: Radix)
    requires i + |ds| <= |s| && s[i..i + |ds|] == ds && k <= |ds|
    requires forall j :: 0 <= j < |ds| ==> ds[j] >= 0x30
    requires forall j :: 0 <= j < |ds| ==> IsDigit(ds[j], radix)
    requires i + |ds| < |s| ==> !IsDigit(s[i + |ds|], radix)
    ensures ScanDigits(s, i + k, radix, Fold(0, ds[..k], radix)) == (Fold(0, ds, radix), i + |ds|)
    decreases |ds| - k
  {
    if k == |ds| {
      assert ds[..k] == ds;
    } else {
      assert s[i + k] == s[i..i + |ds|][k];
      assert IsDigit(ds[k], radix);
      assert ds[..k + 1][..k] == ds[..k];
      ScanRun(s, i, ds, k + 1, radix);
    }
  }

  lemma ScanWholeRun(s: seq<byte>, i: nat, ds: seq<byte>, radix: Radix)
    requires i + |ds| <= |s| && s[i..i + |ds|] == ds
    requires forall j :: 0 <= j < |ds| ==> 0x30 <= ds[j] < 0x30 + radix
    requires i + |ds| < |s| ==> !IsDigit(s[i + |ds|], radix)
    ensures ScanDigits(s, i, radix, 0) == (Fold(0, ds, radix), i + |ds|)
  {
    ScanRun(s, i, ds, 0, radix);
    assert ds[..0] == [];
  }

  /** A printed number followed by a space reads back as itself. */
  lemma ScanDecimal(s: seq<byte>, i: nat, z: int)
    requires i + |Decimal(z)| < |s| && s[i..i + |Decimal(z)|] == Decimal(z)
    requires s[i + |Decimal(z)|] == SPACE
    ensures ScanNumber(s, i, 10) == Some((z, i + |Decimal(z)|))
  {
    hide Digits, Fold, ScanDigits;
    var t := Decimal(z);
    var d := Digits(if z < 0 then -z else z, 10);
    var off := if z < 0 then 1 else 0;
    assert s[i] == s[i..i + |t|][0] == t[0];
    assert s[i + off..i + off + |d|] == s[i..i + |t|][off..] == d;
    assert SkipSpace(s, i) == i;
    ScanWholeRun(s, i + off, d, 10);
    FoldDigits(if z < 0 then -z else z, 10);
    assert s[i + off] == d[0];
  }

  lemma ScanAfterSpace(s: seq<byte>, i: nat, z: int)
    requires i + 1 + |Decimal(z)| < |s| && s[i] == SPACE
    requires s[i + 1..i + 1 + |Decimal(z)|] == Decimal(z) && s[i + 1 + |Decimal(z)|] == SPACE
    ensures ScanNumber(s, i, 10) == Some((z, i + 1 + |Decimal(z)|))
  {
    ScanDecimal(s, i + 1, z);
    assert s[i + 1] == s[i + 1..i + 1 + |Decimal(z)|][0] == Decimal(z)[0];
    assert SkipSpace(s, i) == SkipSpace(s, i + 1) == i + 1;
  }

  lemma OctalFold(n: nat)
    ensures Fold(0, Octal6(n), 8) == n
  {
    hide Digits, Fold;
    var d := Digits(n, 8);
    FoldZeros(if |d| < 6 then 6 - |d| else 0, d, 8);
    FoldDigits(n, 8);
  }

  lemma ScanOctal(s: seq<byte>, n: nat)
    requires |Octal6(n)| < |s| && s[..|Octal6(n)|] == Octal6(n) && s[|Octal6(n)|] == SPACE
    ensures ScanNumber(s, 0, 8) == Some((n, |Octal6(n)|))
  {
    hide Octal6, ScanDigits, Fold;
    var t := Octal6(n);
    assert s[0] == s[..|t|][0] == t[0];
    assert s[0..|t|] == t;
    ScanWholeRun(s, 0, t, 8);
    OctalFold(n);
    assert SkipSpace(s, 0) == 0;
  }

  /** What parse_entry takes for a hash: 64 bytes of the line, not starting
      with a space.  The field is copied without a check that it is hex. */
  predicate HashText(h: seq<byte>)
  {
    |h| == 64 && 0 !in h && NEWLINE !in h && !IsSpace(h[0])
  }

  lemma HexIsHashText(h: seq<byte>)
    requires IsHash(h)
    ensures HashText(h)
  {
    forall i | 0 <= i < 64
      ensures h[i] != 0 && h[i] != NEWLINE
    {
      assert IsHexDigit(h[i]);
    }
    assert IsHexDigit(h[0]);
  }

  predicate PrintableEntry(e: Entry)
  {
    ValidName(e.name) && e.mode < U32 && HashText(e.hash)
  }

  predicate Printable(dir: seq<Entry>)
  {
    Ascending(dir) && forall i :: 0 <= i < |dir| ==> PrintableEntry(dir[i])
  }

  lemma WrapIsIdentity(e: Entry)
    requires e.mode < U32
    ensures ToUnsigned32(e.mode) == e.mode
    ensures ToInt32(e.uid) == e.uid && ToInt32(e.gid) == e.gid && ToInt32(e.mtimeNs) == e.mtimeNs
    ensures ToInt64(e.mtimeS) == e.mtimeS
  {
  }

  lemma ScanPrintedHead(e: Entry, rest: seq<byte>)
    requires e.mode < U32 && rest != [] && !IsSpace(rest[0])
    ensures ScanFields(Head(e) + rest)
            == Some(Fields(e.mode, e.uid, e.gid, e.mtimeS, e.mtimeNs, |Head(e)|))
  {
    hide Octal6, Decimal, ScanNumber, Digits;
    var s := Head(e) + rest;
    var o, u, g, t, ns := Octal6(e.mode), Decimal(e.uid), Decimal(e.gid), Decimal(e.mtimeS), Decimal(e.mtimeNs);
    SliceFields(o, u, g, t, ns, rest);
    var p0 := |o|;
    var p1 := p0 + 1 + |u|;
    var p2 := p1 + 1 + |g|;
    var p3 := p2 + 1 + |t|;
    ScanOctal(s, e.mode);
    ScanAfterSpace(s, p0, e.uid);
    ScanAfterSpace(s, p1, e.gid);
    ScanAfterSpace(s, p2, e.mtimeS);
    ScanAfterSpace(s, p3, e.mtimeNs);
    var p4 := p3 + 1 + |ns|;
    assert SkipSpace(s, p4) == SkipSpace(s, p4 + 1) == p4 + 1;
  }

  lemma SliceFields(o: seq<byte>, u: seq<byte>, g: seq<byte>, t: seq<byte>, ns: seq<byte>, rest: seq<byte>)
    requires rest != []
    ensures var s := o + [SPACE] + u + [SPACE] + g + [SPACE] + t + [SPACE] + ns + [SPACE] + rest;
            var p0 := |o|; var p1 := p0 + 1 + |u|; var p2 := p1 + 1 + |g|; var p3 := p2 + 1 + |t|; var p4 := p3 + 1 + |ns|;
            && |s| == p4 + 1 + |rest|
            && s[..p0] == o && s[p0] == SPACE
            && s[p0 + 1..p1] == u && s[p1] == SPACE
            && s[p1 + 1..p2] == g && s[p2] == SPACE
            && s[p2 + 1..p3] == t && s[p3] == SPACE
            && s[p3 + 1..p4] == ns && s[p4] == SPACE
            && s[p4 + 1] == rest[0]
  {
  }

  /** parse_entry of a printed line is the entry printed, whatever follows. */
  lemma ParsePrintedEntry(e: Entry, rest: seq<byte>)
    requires PrintableEntry(e)
    ensures ParseEntry(Line(e) + rest, |Line(e)| - 1) == Some(e)
  {
    hide Head, ScanFields, ToInt32, ToInt64, ToUnsigned32, WellFormed;
    var h := Head(e);
    var tail := e.hash + [SPACE] + e.name + [NEWLINE] + rest;
    var s := Line(e) + rest;
    assert s == h + tail;
    ScanPrintedHead(e, tail);
    SliceTail(h, e.hash, e.name, rest);
    WrapIsIdentity(e);
  }

  lemma SliceTail(h: seq<byte>, hash: seq<byte>, name: seq<byte>, rest: seq<byte>)
    requires |hash| == 64
    ensures var s := h + (hash + [SPACE] + name + [NEWLINE] + rest); var n := |h|;
            && |s| == n + 66 + |name| + |rest|
            && s[n..n + 64] == hash && s[n + 64] == SPACE
            && s[n + 65..n + 65 + |name|] == name
  {
  }

  lemma {:induction false} LinesCons(dir: seq<Entry>)
    requires dir != []
    ensures Lines(dir) == Line(dir[0]) + Lines(dir[1..])
    decreases |dir|
  {
    hide Line;
    var init := dir[..|dir| - 1];
    if |dir| == 1 {
      assert init == [] && dir[1..] == [];
    } else {
      LinesCons(init);
      assert dir[1..][..|dir| - 2] == init[1..];
    }
  }

  predicate Plain(s: seq<byte>) { 0 !in s && NEWLINE !in s }

  lemma DecimalIsPlain(z: int)
    ensures Plain(Decimal(z))
  {
    hide Digits;
  }

  lemma HeadIsPlain(e: Entry)
    ensures Plain(Head(e))
  {
    hide Octal6, Decimal;
    DecimalIsPlain(e.uid);
    DecimalIsPlain(e.gid);
    DecimalIsPlain(e.mtimeS);
    DecimalIsPlain(e.mtimeNs);
    assert Plain(Octal6(e.mode));
  }

  /** A printed line ends at its first newline. */
  lemma NewlineEndsLine(e: Entry, rest: seq<byte>)
    requires Plain(e.hash) && Plain(e.name)
    ensures NewlineAt(Line(e) + rest) == |Line(e)| - 1
  {
    HeadIsPlain(e);
    hide Head;
    var body := Head(e) + e.hash + [SPACE] + e.name;
    var s := Line(e) + rest;
    assert s == body + [NEWLINE] + rest;
    var n := NewlineAt(s);
    assert Plain(body);
    forall i | 0 <= i < |body|
      ensures s[i] != NEWLINE
    {
      assert s[i] == body[i] && body[i] in body;
    }
    assert s[|body|] == NEWLINE;
  }

  lemma {:induction false} LoadPrinted(dir: seq<Entry>, i: nat)
    requires Printable(dir) && i <= |dir|
    ensures LoadLines(Lines(dir[i..]), dir[..i]) == Some(dir)
    decreases |dir| - i
  {
    hide Line, ParseEntry, NameCmp, NewlineAt, ValidName, HashText;
    if i == |dir| {
      assert dir[..i] == dir;
    } else {
      var e, rest := dir[i], Lines(dir[i + 1..]);
      assert dir[i..][1..] == dir[i + 1..];
      LinesCons(dir[i..]);
      assert PrintableEntry(e);
      PrintableIsPlain(e);
      NewlineEndsLine(e, rest);
      ParsePrintedEntry(e, rest);
      if i > 0 {
        NameCmpIsLess(dir[i - 1].name, e.name);
        LessAsymmetric(dir[i - 1].name, e.name);
        assert dir[..i][i - 1] == dir[i - 1];
      }
      assert dir[..i] + [e] == dir[..i + 1];
      assert (Line(e) + rest)[|Line(e)|..] == rest;
      LoadPrinted(dir, i + 1);
    }
  }

  lemma PrintableIsPlain(e: Entry)
    requires PrintableEntry(e)
    ensures Plain(e.hash) && Plain(e.name)
  {
  }

  /** Loading what was printed gives back the directory, entry for entry. */
  lemma TextRoundTrip(dir: seq<Entry>)
    requires Printable(dir)
    ensures LoadText(Serialize(dir)) == Some(dir)
  {
    LoadPrinted(dir, 0);
    assert dir[0..] == dir && dir[..0] == [];
    assert Serialize(dir)[1..] == Lines(dir);
  }

  /** One directory has one text, and one text one directory. */
  lemma SerializeInjective(a: seq<Entry>, b: seq<Entry>)
    requires Printable(a) && Printable(b) && Serialize(a) == Serialize(b)
    ensures a == b
  {
    TextRoundTrip(a);
    TextRoundTrip(b);
  }

  // ------------------------------------------------------------------
  // Verification and lookup
  // ------------------------------------------------------------------

  /** tree_text_verify: parse, print again, compare. */
  predicate TextVerifies(data: seq<byte>)
  {
    var dir := LoadText(data);
    dir.Some? && Serialize(dir.value) == data
  }

  lemma {:induction false} LoadedIsAscending(s: seq<byte>, acc: seq<Entry>)
    requires Ascending(acc) && LoadLines(s, acc).Some?
    requires forall i :: 0 <= i < |acc| ==> ValidName(acc[i].name) && acc[i].mode < U32
    ensures var dir := LoadLines(s, acc).value;
            && Ascending(dir) && |acc| <= |dir| && dir[..|acc|] == acc
            && forall i :: 0 <= i < |dir| ==> ValidName(dir[i].name) && dir[i].mode < U32
    decreases |s|
  {
    hide ParseEntry, NameCmp, NewlineAt, ValidName;
    if s == [] {
      assert acc[..|acc|] == acc;
    } else {
      var nl := NewlineAt(s);
      var e := ParseEntry(s, nl).value;
      if acc != [] {
        NameCmpIsLess(acc[|acc| - 1].name, e.name);
      }
      AppendAscending(acc, e);
      LoadedIsAscending(s[nl + 1..], acc + [e]);
      var dir := LoadLines(s, acc).value;
      assert dir[..|acc|] == dir[..|acc| + 1][..|acc|] == (acc + [e])[..|acc|] == acc;
    }
  }

  /** On a text that loads, the early-exit lookup returns exactly the entry the
      listing has under the name, and absence exactly when it has none. */
  lemma TextLookupIsListing(data: seq<byte>, name: seq<byte>)
    requires LoadText(data).Some?
    ensures LookupText(data, name) == match Find(LoadText(data).value, name)
                                      case Some(e) => Found(e)
                                      case None => Absent
  {
    LookupLinesIsFind(data[1..], [], name);
    var dir := LoadText(data).value;
    assert dir[0..] == dir;
  }

  lemma {:induction false} LookupLinesIsFind(s: seq<byte>, acc: seq<Entry>, name: seq<byte>)
    requires LoadLines(s, acc).Some? && Ascending(acc)
    requires forall i :: 0 <= i < |acc| ==> ValidName(acc[i].name) && acc[i].mode < U32
    ensures |acc| <= |LoadLines(s, acc).value|
    ensures LookupLines(s, if acc == [] then None else Some(acc[|acc| - 1]), name)
            == match Find(LoadLines(s, acc).value[|acc|..], name)
               case Some(e) => Found(e)
               case None => Absent
    decreases |s|
  {
    hide ParseEntry, NameCmp, NewlineAt, ValidName;
    LoadedIsAscending(s, acc);
    var dir := LoadLines(s, acc).value;
    if s == [] {
      assert dir[|acc|..] == [];
    } else {
      var nl := NewlineAt(s);
      var e := ParseEntry(s, nl).value;
      var next := acc + [e];
      if acc != [] {
        NameCmpIsLess(acc[|acc| - 1].name, e.name);
      }
      AppendAscending(acc, e);
      LookupLinesIsFind(s[nl + 1..], next, name);
      LoadedIsAscending(s[nl + 1..], next);
      assert dir[|acc|] == dir[..|next|][|acc|] == e;
      assert dir[|acc|..][1..] == dir[|next|..];
      NameCmpIsLess(e.name, name);
      if NameCmp(e.name, name) > 0 {
        FindFront(dir[|acc|..], name);
      }
    }
  }

  lemma {:induction false} LinesHoldNoNul(dir: seq<Entry>)
    requires forall i :: 0 <= i < |dir| ==> 0 !in dir[i].hash && 0 !in dir[i].name
    ensures 0 !in Lines(dir)
    decreases |dir|
  {
    if dir != [] {
      var e := dir[|dir| - 1];
      LinesHoldNoNul(dir[..|dir| - 1]);
      HeadIsPlain(e);
      hide Head;
    }
  }

  lemma {:induction false} SkipSpaceStops(s: seq<byte>, i: nat)
    requires i <= |s|
    ensures SkipSpace(s, i) < |s| ==> !IsSpace(s[SkipSpace(s, i)])
    decreases |s| - i
  {
    if i < |s| && IsSpace(s[i]) {
      SkipSpaceStops(s, i + 1);
    }
  }

  lemma ParsedHashText(s: seq<byte>, nl: nat)
    requires 0 !in s && nl <= |s| && NEWLINE !in s[..nl] && ParseEntry(s, nl).Some?
    ensures HashText(ParseEntry(s, nl).value.hash)
  {
    hide ScanNumber, ToInt32, ToInt64, ToUnsigned32, CString;
    PlainSlice(s, nl, ScanFields(s).value.n);
    LastScan(s);
  }

  lemma PlainSlice(s: seq<byte>, nl: nat, i: nat)
    requires 0 !in s && i + 64 <= nl <= |s| && NEWLINE !in s[..nl]
    ensures var h := s[i..i + 64]; 0 !in h && NEWLINE !in h && CString(h) == h
  {
    hide CString;
    var h := s[i..i + 64];
    assert h == s[..nl][i..i + 64];
    assert forall c :: c in h ==> c in s[..nl] && c in s;
  }

  lemma LastScan(s: seq<byte>)
    requires ScanFields(s).Some?
    ensures ScanFields(s).value.n < |s| ==> !IsSpace(s[ScanFields(s).value.n])
  {
    hide ScanNumber, IsSpace, SkipSpace;
    var u := ScanNumber(s, ScanNumber(s, 0, 8).value.1, 10);
    var t := ScanNumber(s, ScanNumber(s, u.value.1, 10).value.1, 10);
    SkipSpaceStops(s, ScanNumber(s, t.value.1, 10).value.1);
  }

  lemma {:induction false} LoadedHashTexts(s: seq<byte>, acc: seq<Entry>)
    requires 0 !in s && LoadLines(s, acc).Some?
    requires forall i :: 0 <= i < |acc| ==> HashText(acc[i].hash)
    ensures forall i :: 0 <= i < |LoadLines(s, acc).value| ==> HashText(LoadLines(s, acc).value[i].hash)
    decreases |s|
  {
    hide ParseEntry, NameCmp, ValidName, HashText;
    if s != [] {
      var nl := NewlineAt(s);
      assert NEWLINE !in s[..nl];
      ParsedHashText(s, nl);
      assert forall c :: c in s[nl + 1..] ==> c in s;
      LoadedHashTexts(s[nl + 1..], acc + [ParseEntry(s, nl).value]);
    }
  }

  lemma {:induction false} LoadedHoldsNoNul(s: seq<byte>, acc: seq<Entry>)
    requires LoadLines(s, acc).Some?
    requires forall i :: 0 <= i < |acc| ==> 0 !in acc[i].hash && 0 !in acc[i].name
    ensures forall i :: 0 <= i < |LoadLines(s, acc).value| ==>
              0 !in LoadLines(s, acc).value[i].hash && 0 !in LoadLines(s, acc).value[i].name
    decreases |s|
  {
    hide NameCmp, ValidName, ScanFields, ToInt32, ToInt64, ToUnsigned32;
    if s != [] {
      var nl := NewlineAt(s);
      LoadedHoldsNoNul(s[nl + 1..], acc + [ParseEntry(s, nl).value]);
    }
  }

  /** Verification accepts exactly the texts the printer writes. */
  lemma VerifiedTextsAreThePrintedOnes(data: seq<byte>)
    ensures TextVerifies(data) <==> exists dir :: Printable(dir) && data == Serialize(dir)
  {
    if TextVerifies(data) {
      var dir := LoadText(data).value;
      LoadedIsAscending(data[1..], []);
      LoadedHoldsNoNul(data[1..], []);
      LinesHoldNoNul(dir);
      assert data[1..] == Lines(dir);
      LoadedHashTexts(data[1..], []);
      assert Printable(dir);
    }
    if dir :| Printable(dir) && data == Serialize(dir) {
      TextRoundTrip(dir);
    }
  }
}
