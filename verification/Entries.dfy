/** Directory entries and their hex addresses (cas-tree.h, cas.c). */
module Entries {
  import opened Bytes
  import opened Names

  type Int32 = x: int | -0x8000_0000 <= x < 0x8000_0000
  type Int64 = x: int | -0x8000_0000_0000_0000 <= x < 0x8000_0000_0000_0000

  /** struct cas_tree_entry.  mode holds the 32 bits the C int is printed and
      stored as; hash is the child's address in text form. */
  datatype Entry = Entry(name: seq<byte>, mode: nat, uid: Int32, gid: Int32,
                         mtimeS: Int64, mtimeNs: Int32, hash: seq<byte>)

  const S_IFMT_DIV: nat := 0x1000     // the type is the mode's bits 12..15
  const S_IFDIR: nat := 0x4000
  const S_IFREG: nat := 0x8000

  /** mode & CAS_TREE_S_IFMT */
  function FileType(mode: nat): nat { mode / S_IFMT_DIV % 16 * S_IFMT_DIV }

  // ------------------------------------------------------------------
  // Hex
  // ------------------------------------------------------------------

  predicate IsHexDigit(c: byte)
  {
    0x30 <= c <= 0x39 || 0x61 <= c <= 0x66 || 0x41 <= c <= 0x46
  }

  predicate IsLowerHexDigit(c: byte) { 0x30 <= c <= 0x39 || 0x61 <= c <= 0x66 }

  function HexValue(c: byte): (v: nat)
    requires IsHexDigit(c)
    ensures v < 16
  {
    if c <= 0x39 then c - 0x30 else if c >= 0x61 then c - 0x61 + 10 else c - 0x41 + 10
  }

  function HexDigit(v: nat): (c: byte)
    requires v < 16
    ensures IsLowerHexDigit(c) && HexValue(c) == v
  {
    if v < 10 then 0x30 + v else 0x61 + v - 10
  }

  predicate IsHash(h: seq<byte>) { |h| == 64 && forall i :: 0 <= i < 64 ==> IsHexDigit(h[i]) }

  predicate IsLowerHash(h: seq<byte>) { |h| == 64 && forall i :: 0 <= i < 64 ==> IsLowerHexDigit(h[i]) }

  /** cas_hex_encode of one digest */
  function HexEncode(d: Digest): (h: seq<byte>)
    ensures IsLowerHash(h)
  {
    seq(64, i requires 0 <= i < 64 => HexDigit(if i % 2 == 0 then d[i / 2] / 16 else d[i / 2] % 16))
  }

  /** cas_hex_decode of one address */
  function HexDecode(h: seq<byte>): (d: Digest)
    requires IsHash(h)
  {
    seq(32, i requires 0 <= i < 32 => HexValue(h[2 * i]) * 16 + HexValue(h[2 * i + 1]))
  }

  const HEX_DIGITS: seq<byte> := [
    0x30, 0x31, 0x32, 0x33, 0x34, 0x35, 0x36, 0x37, 0x38, 0x39, 0x61, 0x62, 0x63, 0x64, 0x65, 0x66]

  /** Each byte of a digest is two digits of its address, the high one first. */
  lemma HexDigitsOf(d: Digest, i: nat)
    requires i < 32
    ensures |HEX_DIGITS| == 16
    ensures HexEncode(d)[2 * i] == HEX_DIGITS[d[i] / 16] && HexEncode(d)[2 * i + 1] == HEX_DIGITS[d[i] % 16]
  {
    assert 2 * i / 2 == i && (2 * i + 1) / 2 == i && (2 * i + 1) % 2 == 1;
  }

  lemma HexDecodeOfEncode(d: Digest)
    ensures HexDecode(HexEncode(d)) == d
  {
    var h := HexEncode(d);
    forall i | 0 <= i < 32
      ensures HexDecode(h)[i] == d[i]
    {
      assert 2 * i / 2 == i && (2 * i + 1) / 2 == i && (2 * i + 1) % 2 == 1;
      assert HexValue(h[2 * i]) == d[i] / 16;
      assert HexValue(h[2 * i + 1]) == d[i] % 16;
    }
  }

  function LowerDigit(c: byte): byte { if 0x41 <= c <= 0x46 then c + 0x20 else c }

  function Lower(h: seq<byte>): (r: seq<byte>)
    ensures |r| == |h|
  {
    seq(|h|, i requires 0 <= i < |h| => LowerDigit(h[i]))
  }

  /** Decoding forgets only the case of the digits. */
  lemma HexEncodeOfDecode(h: seq<byte>)
    requires IsHash(h)
    ensures HexEncode(HexDecode(h)) == Lower(h)
    ensures HexEncode(HexDecode(h)) == h <==> IsLowerHash(h)
  {
    var d := HexDecode(h);
    forall i | 0 <= i < 64
      ensures HexEncode(d)[i] == Lower(h)[i]
    {
      var j := i / 2;
      assert d[j] == HexValue(h[2 * j]) * 16 + HexValue(h[2 * j + 1]);
      assert IsHexDigit(h[2 * j]) && IsHexDigit(h[2 * j + 1]);
      assert d[j] / 16 == HexValue(h[2 * j]) && d[j] % 16 == HexValue(h[2 * j + 1]);
      assert i == 2 * j || i == 2 * j + 1;
      DigitOfValue(h[i]);
    }
    assert HexEncode(d) == Lower(h);
    if IsLowerHash(h) {
      assert Lower(h) == h by {
        forall i | 0 <= i < 64
          ensures Lower(h)[i] == h[i]
        {
          assert IsLowerHexDigit(h[i]);
        }
      }
    }
  }

  lemma DigitOfValue(c: byte)
    requires IsHexDigit(c)
    ensures HexDigit(HexValue(c)) == LowerDigit(c)
  {
  }

  // ------------------------------------------------------------------
  // Listings
  // ------------------------------------------------------------------

  predicate Ascending(dir: seq<Entry>)
  {
    forall i, j :: 0 <= i < j < |dir| ==> Less(dir[i].name, dir[j].name)
  }

  predicate WellFormedEntry(e: Entry)
  {
    ValidName(e.name) && e.mode < U32 && IsHash(e.hash)
  }

  /** What the format calls a directory: strictly ascending valid names. */
  predicate Canonical(dir: seq<Entry>)
  {
    Ascending(dir) && forall i :: 0 <= i < |dir| ==> WellFormedEntry(dir[i])
  }

  predicate LowerHashes(dir: seq<Entry>)
  {
    forall i :: 0 <= i < |dir| ==> IsLowerHash(dir[i].hash)
  }

  /** The entry listed under name. */
  function Find(dir: seq<Entry>, name: seq<byte>): (r: Option<Entry>)
    ensures r.Some? ==> r.value in dir && r.value.name == name
    ensures r.None? ==> forall i :: 0 <= i < |dir| ==> dir[i].name != name
  {
    if dir == [] then None
    else if dir[0].name == name then Some(dir[0])
    else Find(dir[1..], name)
  }

  lemma FindFront(dir: seq<Entry>, name: seq<byte>)
    requires Ascending(dir) && dir != [] && Less(name, dir[0].name)
    ensures Find(dir, name) == None
  {
    var r := Find(dir, name);
    if r.Some? {
      var j :| 0 <= j < |dir| && dir[j] == r.value;
      if j > 0 {
        LessTransitive(name, dir[0].name, dir[j].name);
      }
      LessIrreflexive(name);
    }
  }

  lemma {:induction false} AppendAscending(dir: seq<Entry>, e: Entry)
    requires Ascending(dir) && (dir != [] ==> Less(dir[|dir| - 1].name, e.name))
    ensures Ascending(dir + [e])
  {
    forall i, j | 0 <= i < j < |dir| + 1
      ensures Less((dir + [e])[i].name, (dir + [e])[j].name)
    {
      if j == |dir| && i < |dir| - 1 {
        LessTransitive(dir[i].name, dir[|dir| - 1].name, e.name);
      }
    }
  }

  /** The bytes of a C string: everything before the first NUL. */
  function CString(s: seq<byte>): (r: seq<byte>)
    ensures 0 !in r && |r| <= |s|
    ensures 0 !in s ==> r == s
  {
    if s == [] || s[0] == 0 then [] else [s[0]] + CString(s[1..])
  }
}
