/** Entry names: canonical order and well-formed UTF-8
    (cas-tree.c, "Name validation and canonical ordering"). */
module Names {
  import opened Bytes

  const NAME_MAX: nat := 255

  /** Lexicographic order, a proper prefix first. */
  predicate Less(a: seq<int>, b: seq<int>)
  {
    b != [] && (a == [] || a[0] < b[0] || (a[0] == b[0] && Less(a[1..], b[1..])))
  }

  lemma {:induction false} LessIrreflexive(a: seq<int>)
    ensures !Less(a, a)
  {
    if a != [] {
      LessIrreflexive(a[1..]);
    }
  }

  lemma {:induction false} LessTransitive(a: seq<int>, b: seq<int>, c: seq<int>)
    requires Less(a, b) && Less(b, c)
    ensures Less(a, c)
  {
    if a != [] && a[0] == b[0] == c[0] {
      LessTransitive(a[1..], b[1..], c[1..]);
    }
  }

  lemma {:induction false} LessTotal(a: seq<int>, b: seq<int>)
    ensures Less(a, b) || a == b || Less(b, a)
  {
    if a != [] && b != [] && a[0] == b[0] {
      LessTotal(a[1..], b[1..]);
      assert a == [a[0]] + a[1..] && b == [b[0]] + b[1..];
    }
  }

  lemma LessAsymmetric(a: seq<int>, b: seq<int>)
    requires Less(a, b)
    ensures !Less(b, a)
  {
    if Less(b, a) {
      LessTransitive(a, b, a);
      LessIrreflexive(a);
    }
  }

  lemma {:induction false} LessAt(a: seq<int>, b: seq<int>, k: nat)
    requires k < |a| && k < |b| && a[..k] == b[..k] && a[k] < b[k]
    ensures Less(a, b)
  {
    if k > 0 {
      assert a[0] == a[..k][0] == b[..k][0] == b[0];
      assert a[1..][..k - 1] == a[..k][1..] == b[..k][1..] == b[1..][..k - 1];
      LessAt(a[1..], b[1..], k - 1);
    }
  }

  lemma LessNil(a: seq<int>, b: seq<int>)
    requires a == [] || b == []
    ensures Less(a, b) <==> a == [] && b != []
  {
  }

  lemma {:induction false} LessStrip(p: seq<int>, a: seq<int>, b: seq<int>)
    ensures Less(p + a, p + b) <==> Less(a, b)
  {
    if p == [] {
      assert p + a == a && p + b == b;
    } else {
      assert (p + a)[1..] == p[1..] + a && (p + b)[1..] == p[1..] + b;
      LessStrip(p[1..], a, b);
    }
  }

  /** memcmp over equally long strings: the sign of the first difference. */
  function MemCmp(a: seq<byte>, b: seq<byte>): (c: int)
    requires |a| == |b|
    decreases a
  {
    if a == [] then 0
    else if a[0] != b[0] then a[0] - b[0]
    else MemCmp(a[1..], b[1..])
  }

  /** name_cmp: memcmp over the common length, then the shorter name first. */
  function NameCmp(a: seq<byte>, b: seq<byte>): (c: int)
  {
    var n := if |a| < |b| then |a| else |b|;
    var c := MemCmp(a[..n], b[..n]);
    if c != 0 then c
    else if |a| < |b| then -1
    else if |a| > |b| then 1
    else 0
  }

  /** name_cmp decides the lexicographic order of unsigned bytes. */
  lemma {:induction false} NameCmpIsLess(a: seq<byte>, b: seq<byte>)
    ensures NameCmp(a, b) < 0 <==> Less(a, b)
    ensures NameCmp(a, b) > 0 <==> Less(b, a)
    ensures NameCmp(a, b) == 0 <==> a == b
    decreases a
  {
    if a != [] && b != [] {
      var n := if |a| < |b| then |a| else |b|;
      assert a[..n][1..] == a[1..][..n - 1] && b[..n][1..] == b[1..][..n - 1];
      if a[0] == b[0] {
        NameCmpIsLess(a[1..], b[1..]);
        assert a == [a[0]] + a[1..] && b == [b[0]] + b[1..];
      }
    }
  }

  // ------------------------------------------------------------------
  // Well-formed UTF-8
  // ------------------------------------------------------------------

  predicate Tail(b: byte) { 0x80 <= b <= 0xBF }

  /** Length of the first character by the grammar of section 4 of RFC 3629,
      or 0 when no production matches. */
  function HeadLen(s: seq<byte>): (n: nat)
    ensures n <= |s| && n <= 4
  {
    if s == [] then 0
    else if s[0] <= 0x7F then 1
    else if 0xC2 <= s[0] <= 0xDF && |s| >= 2 && Tail(s[1]) then 2
    else if |s| >= 3 && Tail(s[2]) &&
            ((s[0] == 0xE0 && 0xA0 <= s[1] <= 0xBF)
             || (0xE1 <= s[0] <= 0xEC && Tail(s[1]))
             || (s[0] == 0xED && 0x80 <= s[1] <= 0x9F)
             || (0xEE <= s[0] <= 0xEF && Tail(s[1]))) then 3
    else if |s| >= 4 && Tail(s[2]) && Tail(s[3]) &&
            ((s[0] == 0xF0 && 0x90 <= s[1] <= 0xBF)
             || (0xF1 <= s[0] <= 0xF3 && Tail(s[1]))
             || (s[0] == 0xF4 && 0x80 <= s[1] <= 0x8F)) then 4
    else 0
  }

  /** UTF8-octets of section 4 of RFC 3629. */
  predicate WellFormed(s: seq<byte>)
  {
    s == [] || (HeadLen(s) > 0 && WellFormed(s[HeadLen(s)..]))
  }

  /** The lead byte classes of valid_utf8: continuation count, payload bits and
      smallest code point that needs that many bytes. */
  function LeadClass(c: byte): (r: (nat, nat, nat))
    requires c >= 0x80
  {
    var v: nat := c;
    if v / 0x20 == 6 then (1, v % 0x20, 0x80)
    else if v / 0x10 == 14 then (2, v % 0x10, 0x800)
    else if v / 8 == 30 then (3, v % 8, 0x1_0000)
    else (0, 0, 0)
  }

  lemma LeadClassRanges(c: byte)
    requires c >= 0x80
    ensures LeadClass(c) == if 0xC0 <= c <= 0xDF then (1, c as int - 0xC0, 0x80)
                            else if 0xE0 <= c <= 0xEF then (2, c as int - 0xE0, 0x800)
                            else if 0xF0 <= c <= 0xF7 then (3, c as int - 0xF0, 0x1_0000)
                            else (0, 0, 0)
  {
  }

  /** The six payload bits of bytes 1..k-1 of s shifted in after head. */
  function Accumulate(head: nat, s: seq<byte>, k: nat): nat
    requires 1 <= k <= |s|
  {
    if k == 1 then head else Accumulate(head, s, k - 1) * 0x40 + s[k - 1] as int % 0x40
  }

  predicate InRange(cp: nat, min: nat)
  {
    cp >= min && !(0xD800 <= cp <= 0xDFFF) && cp <= 0x10_FFFF
  }

  /** With its continuation bytes in place, a sequence is a production of the
      grammar exactly when the decoded value passes the three range tests. */
  lemma RangeTestsAreTheGrammar(s: seq<byte>)
    requires s != [] && s[0] >= 0x80 && LeadClass(s[0]).0 > 0
    requires LeadClass(s[0]).0 < |s|
    requires forall j :: 1 <= j <= LeadClass(s[0]).0 ==> Tail(s[j])
    ensures var (extra, head, min) := LeadClass(s[0]);
            && (HeadLen(s) > 0 <==> InRange(Accumulate(head, s, extra + 1), min))
            && (HeadLen(s) > 0 ==> HeadLen(s) == extra + 1)
  {
    LeadClassRanges(s[0]);
    var (extra, head, min) := LeadClass(s[0]);
    var b: seq<int> := s;
    assert Tail(s[1]);
    var a2 := head * 0x40 + (b[1] - 0x80);
    assert Accumulate(head, s, 2) == a2 by { assert b[1] % 0x40 == b[1] - 0x80; }
    if extra >= 2 {
      assert Tail(s[2]);
      var a3 := a2 * 0x40 + (b[2] - 0x80);
      assert Accumulate(head, s, 3) == a3 by { assert b[2] % 0x40 == b[2] - 0x80; }
      if extra == 3 {
        assert Tail(s[3]);
        assert Accumulate(head, s, 4) == a3 * 0x40 + (b[3] - 0x80) by { assert b[3] % 0x40 == b[3] - 0x80; }
      }
    }
  }

  /** A bad lead byte, a missing byte or a non-continuation byte matches no
      production. */
  lemma BrokenSequence(s: seq<byte>)
    requires s != [] && s[0] >= 0x80
    requires var extra := LeadClass(s[0]).0;
             extra == 0 || extra >= |s| || exists j :: 1 <= j <= extra && !Tail(s[j])
    ensures HeadLen(s) == 0
  {
    LeadClassRanges(s[0]);
  }

  /** One multi-byte sequence of valid_utf8: its length, or 0 when rejected as
      malformed, overlong, a surrogate or past U+10FFFF. */
  method ScanSequence(s: seq<byte>) returns (n: nat)
    requires s != [] && s[0] >= 0x80
    ensures n == HeadLen(s)
  {
    var (extra, head, min) := LeadClass(s[0]);
    if extra == 0 || extra >= |s| {
      BrokenSequence(s);
      return 0;
    }
    var cp, k := head, 1;
    while k <= extra
      invariant 1 <= k <= extra + 1
      invariant forall j :: 1 <= j < k ==> Tail(s[j])
      invariant cp == Accumulate(head, s, k)
    {
      var cc: nat := s[k];
      if cc / 0x40 != 2 {
        assert !Tail(s[k]);
        BrokenSequence(s);
        return 0;
      }
      assert Tail(s[k]);
      cp := cp * 0x40 + cc % 0x40;
      k := k + 1;
    }
    RangeTestsAreTheGrammar(s);
    if cp < min {
      return 0;
    }
    if 0xD800 <= cp <= 0xDFFF {
      return 0;
    }
    if cp > 0x10_FFFF {
      return 0;
    }
    return extra + 1;
  }

  /** valid_utf8 */
  method ValidUtf8(s: seq<byte>) returns (ok: bool)
    ensures ok <==> WellFormed(s)
  {
    var i := 0;
    assert s[0..] == s;
    while i < |s|
      invariant 0 <= i <= |s|
      invariant WellFormed(s) <==> WellFormed(s[i..])
    {
      var n := 1;
      if s[i] >= 0x80 {
        n := ScanSequence(s[i..]);
        if n == 0 {
          return false;
        }
      }
      assert HeadLen(s[i..]) == n;
      assert s[i + n..] == s[i..][n..];
      i := i + n;
    }
    return true;
  }

  /** The code point of the first character. */
  function CodePoint(s: seq<byte>): nat
    requires HeadLen(s) > 0
  {
    var b: seq<int> := s;
    match HeadLen(s)
    case 1 => b[0]
    case 2 => (b[0] - 0xC0) * 0x40 + (b[1] - 0x80)
    case 3 => (b[0] - 0xE0) * 0x1000 + (b[1] - 0x80) * 0x40 + (b[2] - 0x80)
    case _ => (b[0] - 0xF0) * 0x40000 + (b[1] - 0x80) * 0x1000 + (b[2] - 0x80) * 0x40 + (b[3] - 0x80)
  }

  function CodePoints(s: seq<byte>): seq<nat>
    requires WellFormed(s)
  {
    if s == [] then [] else [CodePoint(s)] + CodePoints(s[HeadLen(s)..])
  }

  lemma CodePointRange(s: seq<byte>)
    requires HeadLen(s) > 0
    ensures HeadLen(s) == 1 ==> CodePoint(s) < 0x80 && s[0] < 0x80
    ensures HeadLen(s) == 2 ==> 0x80 <= CodePoint(s) < 0x800 && 0xC2 <= s[0] < 0xE0
    ensures HeadLen(s) == 3 ==> 0x800 <= CodePoint(s) < 0x1_0000 && 0xE0 <= s[0] < 0xF0
    ensures HeadLen(s) == 4 ==> 0x1_0000 <= CodePoint(s) <= 0x10_FFFF && 0xF0 <= s[0]
  {
  }

  /** Equal code points have one spelling; a smaller one differs first in a
      smaller byte. */
  lemma HeadOrder(a: seq<byte>, b: seq<byte>)
    requires HeadLen(a) > 0 && HeadLen(b) > 0
    ensures CodePoint(a) == CodePoint(b) ==> HeadLen(a) == HeadLen(b) && a[..HeadLen(a)] == b[..HeadLen(b)]
    ensures CodePoint(a) < CodePoint(b) ==> Less(a, b)
  {
    CodePointRange(a);
    CodePointRange(b);
    if CodePoint(a) < CodePoint(b) {
      var k := FirstDifference(a, b);
      LessAt(a, b, k);
    } else if CodePoint(a) == CodePoint(b) {
      SameSpelling(a, b);
    }
  }

  lemma TailBytes(s: seq<byte>)
    requires HeadLen(s) > 0
    ensures HeadLen(s) >= 2 ==> 0x80 <= s[1] < 0xC0
    ensures HeadLen(s) >= 3 ==> 0x80 <= s[2] < 0xC0
    ensures HeadLen(s) >= 4 ==> 0x80 <= s[3] < 0xC0
  {
  }

  lemma SameSpelling(a: seq<byte>, b: seq<byte>)
    requires HeadLen(a) == HeadLen(b) > 0 && CodePoint(a) == CodePoint(b)
    ensures a[..HeadLen(a)] == b[..HeadLen(b)]
  {
    TailBytes(a);
    TailBytes(b);
    var n := HeadLen(a);
    if n == 2 {
      assert a[0] == b[0];
    } else if n == 3 {
      assert a[0] == b[0];
      assert a[1] == b[1];
    } else if n == 4 {
      assert a[0] == b[0];
      assert a[1] == b[1];
      assert a[2] == b[2];
    }
  }

  lemma FirstDifference(a: seq<byte>, b: seq<byte>) returns (k: nat)
    requires HeadLen(a) > 0 && HeadLen(b) > 0 && CodePoint(a) < CodePoint(b)
    ensures k < |a| && k < |b| && a[..k] == b[..k] && a[k] < b[k]
  {
    CodePointRange(a);
    CodePointRange(b);
    if a[0] != b[0] {
      k := 0;
    } else if a[1] != b[1] {
      k := 1;
    } else if a[2] != b[2] {
      k := 2;
    } else {
      k := 3;
    }
  }

  /** On accepted names the unsigned byte order is the code point order. */
  lemma {:induction false} ByteOrderIsCodePointOrder(a: seq<byte>, b: seq<byte>)
    requires WellFormed(a) && WellFormed(b)
    ensures NameCmp(a, b) < 0 <==> Less(CodePoints(a), CodePoints(b))
  {
    NameCmpIsLess(a, b);
    ByteOrderStep(a, b);
  }

  lemma {:induction false} ByteOrderStep(a: seq<byte>, b: seq<byte>)
    requires WellFormed(a) && WellFormed(b)
    ensures Less(a, b) <==> Less(CodePoints(a), CodePoints(b))
    decreases |a|
  {
    hide HeadLen, CodePoint, Less;
    if a == [] || b == [] {
      LessNil(a, b);
      LessNil(CodePoints(a), CodePoints(b));
    } else {
      var la, lb := HeadLen(a), HeadLen(b);
      HeadOrder(a, b);
      HeadOrder(b, a);
      var ta, tb := a[la..], b[lb..];
      assert CodePoints(a)[1..] == CodePoints(ta) && CodePoints(b)[1..] == CodePoints(tb);
      if CodePoint(a) == CodePoint(b) {
        assert a == a[..la] + ta && b == a[..la] + tb;
        LessStrip(a[..la], ta, tb);
        ByteOrderStep(ta, tb);
        assert CodePoints(a) == [CodePoint(a)] + CodePoints(ta) && CodePoints(b) == [CodePoint(a)] + CodePoints(tb);
        LessStrip([CodePoint(a)], CodePoints(ta), CodePoints(tb));
      } else if CodePoint(a) < CodePoint(b) {
        LessAt(CodePoints(a), CodePoints(b), 0);
      } else {
        LessAt(CodePoints(b), CodePoints(a), 0);
        LessAsymmetric(CodePoints(b), CodePoints(a));
        LessAsymmetric(b, a);
      }
    }
  }

  // ------------------------------------------------------------------
  // The accepted strings are the encodings of Unicode scalar values
  // ------------------------------------------------------------------

  predicate Scalar(cp: nat) { cp <= 0x10_FFFF && !(0xD800 <= cp <= 0xDFFF) }

  /** The shortest spelling of a code point, section 3 of RFC 3629. */
  function Utf8(cp: nat): (s: seq<byte>)
    requires Scalar(cp)
    ensures 0 < |s| <= 4
  {
    if cp < 0x80 then [cp]
    else if cp < 0x800 then [0xC0 + cp / 0x40, 0x80 + cp % 0x40]
    else if cp < 0x1_0000 then [0xE0 + cp / 0x1000, 0x80 + cp / 0x40 % 0x40, 0x80 + cp % 0x40]
    else [0xF0 + cp / 0x4_0000, 0x80 + cp / 0x1000 % 0x40, 0x80 + cp / 0x40 % 0x40, 0x80 + cp % 0x40]
  }

  function Spell(cps: seq<nat>): seq<byte>
    requires forall i :: 0 <= i < |cps| ==> Scalar(cps[i])
  {
    if cps == [] then [] else Utf8(cps[0]) + Spell(cps[1..])
  }

  lemma SpelledHead(cp: nat, rest: seq<byte>)
    requires Scalar(cp)
    ensures var s := Utf8(cp) + rest;
            HeadLen(s) == |Utf8(cp)| && CodePoint(s) == cp && s[|Utf8(cp)|..] == rest
  {
    var s := Utf8(cp) + rest;
    SixBits(cp);
    if 0x80 <= cp < 0x800 {
      assert s[0] == 0xC0 + cp / 0x40 && s[1] == 0x80 + cp % 0x40;
    } else if 0x800 <= cp < 0x1_0000 {
      assert s[0] == 0xE0 + cp / 0x1000 && s[1] == 0x80 + cp / 0x40 % 0x40 && s[2] == 0x80 + cp % 0x40;
    } else if 0x1_0000 <= cp {
      assert s[0] == 0xF0 + cp / 0x4_0000 && s[1] == 0x80 + cp / 0x1000 % 0x40;
      assert s[2] == 0x80 + cp / 0x40 % 0x40 && s[3] == 0x80 + cp % 0x40;
    }
  }

  /** A number by its digits in base 64. */
  lemma SixBits(cp: nat)
    ensures cp == cp / 0x40 * 0x40 + cp % 0x40
    ensures cp / 0x40 == cp / 0x1000 * 0x40 + cp / 0x40 % 0x40
    ensures cp / 0x1000 == cp / 0x4_0000 * 0x40 + cp / 0x1000 % 0x40
  {
  }

  lemma HeadIsSpelled(s: seq<byte>)
    requires HeadLen(s) > 0
    ensures Scalar(CodePoint(s)) && s[..HeadLen(s)] == Utf8(CodePoint(s))
  {
    CodePointRange(s);
    TailBytes(s);
    var n := HeadLen(s);
    HeadScalar(s);
    var t := Utf8(CodePoint(s));
    SpelledHead(CodePoint(s), []);
    assert t + [] == t;
    SameSpelling(s, t);
    assert t[..n] == t;
  }

  lemma HeadScalar(s: seq<byte>)
    requires HeadLen(s) > 0
    ensures Scalar(CodePoint(s)) && HeadLen(s) == |Utf8(CodePoint(s))|
  {
  }

  /** What is accepted is exactly what spells a sequence of scalar values, each in
      its shortest form. */
  lemma {:induction false} AcceptedIsSpelled(s: seq<byte>)
    requires WellFormed(s)
    ensures var cps := CodePoints(s);
            (forall i :: 0 <= i < |cps| ==> Scalar(cps[i])) && Spell(cps) == s
    decreases |s|
  {
    hide HeadLen, CodePoint, Utf8, Scalar;
    if s != [] {
      HeadIsSpelled(s);
      var n := HeadLen(s);
      AcceptedIsSpelled(s[n..]);
      assert CodePoints(s)[1..] == CodePoints(s[n..]);
      assert s == s[..n] + s[n..];
    }
  }

  lemma {:induction false} SpelledIsAccepted(cps: seq<nat>)
    requires forall i :: 0 <= i < |cps| ==> Scalar(cps[i])
    ensures WellFormed(Spell(cps)) && CodePoints(Spell(cps)) == cps
    decreases |cps|
  {
    hide HeadLen, CodePoint, Utf8, Scalar;
    if cps != [] {
      SpelledHead(cps[0], Spell(cps[1..]));
      SpelledIsAccepted(cps[1..]);
    }
  }

  // ------------------------------------------------------------------
  // Admissible names
  // ------------------------------------------------------------------

  /** The names cas_tree_dir_add admits.  A C string holds no NUL. */
  predicate ValidName(n: seq<byte>)
  {
    && 0 < |n| <= NAME_MAX
    && 0 !in n && 0x2F !in n && 0x0A !in n
    && WellFormed(n)
  }

  /** A name is refused when it is empty or longer than 255 bytes, holds a NUL, a
      separator or a newline, or spells no text. */
  lemma NameIff(n: seq<byte>)
    ensures ValidName(n) <==> 1 <= |n| <= 255 && (forall c :: c in n ==> c !in {0, 10, 47}) && WellFormed(n)
  {
    hide WellFormed;
  }
}
