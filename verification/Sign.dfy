/** Signed version records and their chains (cas-sign.c). */
module Sign {
  import opened Bytes
  import opened Entries
  import opened Depots

  const VREC_LEN: nat := 216
  const SIGNED_LEN: nat := 152
  const MAGIC: seq<byte> := [0x56, 0x52, 0x76, 0x31]   // "VRv1"
  const VREC := "vrec"

  /** The digest that names keys, and the signing backend. */
  datatype Backend = Backend(digest: seq<byte> -> Digest,
                             sign: (seq<byte>, seq<byte>) -> seq<byte>,
                             check: (seq<byte>, Digest, seq<byte>) -> bool)

  datatype Vrec = Vrec(topic: Digest, pubkey: Digest, num: nat, time: Int64, root: Addr, prev: Addr)

  datatype Code = OK | ERR | EIO | ENOTFOUND | ETYPE | EBADFORM | EBADBIND | EBADSIG | ETOPIC | ESTALE | EFORK | ECHAIN | EGAP | EINCOMPLETE

  datatype Decoded = Rec(v: Vrec) | Fail(code: Code)

  /** (uint64_t)timestamp and back */
  function Unsigned(t: Int64): (u: nat)
    ensures u < U64
  {
    (t as int) % U64
  }

  function Signed(u: nat): Int64
    requires u < U64
  {
    if u < 0x8000_0000_0000_0000 then u else u - U64
  }

  function PrevBytes(prev: Addr): (b: seq<byte>)
    requires prev == [] || IsHash(prev)
    ensures |b| == 32
  {
    if prev == [] then Nuls(32) else HexDecode(prev)
  }

  /** What cas_vrec_encode accepts. */
  predicate Encodable(v: Vrec)
  {
    IsHash(v.root) && (v.prev == [] || IsHash(v.prev)) && v.num < U64
  }

  /** The 152 bytes the signature covers. */
  function SignedBytes(v: Vrec): (b: seq<byte>)
    requires Encodable(v)
    ensures |b| == SIGNED_LEN
  {
    hide HexDecode;
    MAGIC + Nuls(4) + v.topic + v.pubkey + Le(v.num, 8) + Le(Unsigned(v.time), 8) + HexDecode(v.root) + PrevBytes(v.prev)
  }

  // ------------------------------------------------------------------
  // Encoding in place
  // ------------------------------------------------------------------

  lemma GrowPrefix(before: seq<byte>, prefix: seq<byte>, b: seq<byte>)
    requires |prefix| + |b| <= |before|
    requires before == prefix + Nuls(|before| - |prefix|)
    ensures Splice(before, |prefix|, b) == prefix + b + Nuls(|before| - |prefix| - |b|)
  {
    assert before[..|prefix|] == prefix;
    assert before[|prefix| + |b|..] == Nuls(|before| - |prefix| - |b|);
  }

  /** One memcpy or store into the zeroed record. */
  method PutField(buf: array<byte>, ghost prefix: seq<byte>, pos: nat, b: seq<byte>)
    requires pos == |prefix| && pos + |b| <= buf.Length
    requires buf[..] == prefix + Nuls(buf.Length - |prefix|)
    modifies buf
    ensures buf[..] == prefix + b + Nuls(buf.Length - |prefix| - |b|)
  {
    GrowPrefix(buf[..], prefix, b);
    Blit(buf, pos, b);
  }

  lemma SkipZeros(buf: seq<byte>, prefix: seq<byte>, n: nat)
    requires |prefix| + n <= |buf| && buf == prefix + Nuls(|buf| - |prefix|)
    ensures buf == prefix + Nuls(n) + Nuls(|buf| - |prefix| - n)
  {
  }

  /** cas_vrec_encode: the topic id is filled in from the key. */
  method EncodeRecord(be: Backend, v: Vrec, sk: seq<byte>) returns (r: Option<seq<byte>>, filled: Vrec)
    requires v.num < U64
    requires forall m :: |be.sign(sk, m)| == 64
    ensures r.Some? <==> Encodable(v)
    ensures r.Some? ==> filled == v.(topic := be.digest(v.pubkey)) && r.value == RecordBytes(be, filled, sk)
  {
    hide HexDecode, Le, IsHash;
    filled := v;
    if !IsHash(v.root) || (v.prev != [] && !IsHash(v.prev)) {
      return None, v;
    }
    var out := new byte[VREC_LEN](_ => 0);
    assert out[..] == [] + Nuls(VREC_LEN);
    PutField(out, [], 0, MAGIC);
    ghost var p := [] + MAGIC;
    filled := v.(topic := be.digest(v.pubkey));
    SkipZeros(out[..], p, 4);
    p := p + Nuls(4);
    PutField(out, p, 8, filled.topic);
    p := p + filled.topic;
    PutField(out, p, 40, v.pubkey);
    p := p + v.pubkey;
    PutField(out, p, 72, Le(v.num, 8));
    p := p + Le(v.num, 8);
    PutField(out, p, 80, Le(Unsigned(v.time), 8));
    p := p + Le(Unsigned(v.time), 8);
    PutField(out, p, 88, HexDecode(v.root));
    p := p + HexDecode(v.root);
    if v.prev != [] {
      PutField(out, p, 120, HexDecode(v.prev));
    } else {
      SkipZeros(out[..], p, 32);
    }
    p := p + PrevBytes(v.prev);
    assert p == SignedBytes(filled);
    assert out[..SIGNED_LEN] == p;
    var sig := be.sign(sk, out[..SIGNED_LEN]);
    PutField(out, p, SIGNED_LEN, sig);
    assert out[..] == p + sig;
    r := Some(out[..]);
  }

  function RecordBytes(be: Backend, v: Vrec, sk: seq<byte>): seq<byte>
    requires Encodable(v)
  {
    SignedBytes(v) + be.sign(sk, SignedBytes(v))
  }

  // ------------------------------------------------------------------
  // Decoding
  // ------------------------------------------------------------------

  /** cas_vrec_decode */
  function DecodeRecord(be: Backend, b: seq<byte>): Decoded
  {
    if |b| != VREC_LEN then Fail(EBADFORM)
    else if b[..4] != MAGIC then Fail(EBADFORM)
    else if b[4..8] != Nuls(4) then Fail(EBADFORM)
    else if be.digest(b[40..72]) != b[8..40] then Fail(EBADBIND)
    else
      LeOfFromLe(b[80..88]);
      Pow256Values();
      var v := Vrec(b[8..40], b[40..72], FromLe(b[72..80]), Signed(FromLe(b[80..88])), HexEncode(b[88..120]),
                    if b[120..152] == Nuls(32) then [] else HexEncode(b[120..152]));
      if be.check(b[152..], v.pubkey, b[..152]) then Rec(v) else Fail(EBADSIG)
  }

  /** Where each field of a record lies, its numbers least significant byte
      first, and where the signature does. */
  lemma RecordLayout(be: Backend, v: Vrec, sk: seq<byte>)
    requires Encodable(v) && |be.sign(sk, SignedBytes(v))| == 64
    ensures var b := RecordBytes(be, v, sk);
            && |b| == 216
            && b[..8] == [0x56, 0x52, 0x76, 0x31, 0, 0, 0, 0]
            && b[8..40] == v.topic && b[40..72] == v.pubkey
            && FromLe(b[72..80]) == v.num
            && FromLe(b[80..88]) == (if v.time >= 0 then v.time else v.time + 0x1_0000_0000_0000_0000)
            && b[88..120] == HexDecode(v.root)
            && b[120..152] == (if v.prev == [] then seq(32, _ => 0) else HexDecode(v.prev))
            && b[152..] == be.sign(sk, b[..152])
  {
    Le64RoundTrip(v.num);
    Le64RoundTrip(Unsigned(v.time));
    SliceRecord(v.topic, v.pubkey, Le(v.num, 8), Le(Unsigned(v.time), 8), HexDecode(v.root), PrevBytes(v.prev),
                be.sign(sk, SignedBytes(v)));
    hide Le, FromLe, HexDecode, IsHash, PrevBytes, Unsigned;
    FirstEight(RecordBytes(be, v, sk));
    UnsignedTime(v.time);
    PrevField(v.prev);
  }

  lemma FirstEight(b: seq<byte>)
    requires |b| >= 8 && b[..4] == MAGIC && b[4..8] == Nuls(4)
    ensures b[..8] == [0x56, 0x52, 0x76, 0x31, 0, 0, 0, 0]
  {
    assert b[..8] == b[..4] + b[4..8];
  }

  lemma UnsignedTime(t: Int64)
    ensures Unsigned(t) == if t >= 0 then t else t + 0x1_0000_0000_0000_0000
  {
  }

  lemma PrevField(prev: Addr)
    requires prev == [] || IsHash(prev)
    ensures PrevBytes(prev) == if prev == [] then seq(32, _ => 0) else HexDecode(prev)
  {
    hide HexDecode;
  }

  lemma SliceRecord(topic: Digest, pubkey: Digest, num: seq<byte>, time: seq<byte>, root: seq<byte>, prev: seq<byte>,
        sig: seq<byte>)
    requires |num| == 8 && |time| == 8 && |root| == 32 && |prev| == 32 && |sig| == 64
    ensures var b := MAGIC + Nuls(4) + topic + pubkey + num + time + root + prev + sig;
            && |b| == VREC_LEN && b[..4] == MAGIC && b[4..8] == Nuls(4) && b[8..40] == topic && b[40..72] == pubkey
            && b[72..80] == num && b[80..88] == time && b[88..120] == root && b[120..152] == prev && b[152..] == sig
            && b[..152] == MAGIC + Nuls(4) + topic + pubkey + num + time + root + prev
  {
  }

  /** How a record comes back: digits in lower case, an all-zero predecessor as
      none. */
  function Canonical(v: Vrec): Vrec
    requires Encodable(v)
  {
    v.(root := Lower(v.root), prev := if v.prev == [] || HexDecode(v.prev) == Nuls(32) then [] else Lower(v.prev))
  }

  lemma TimeRoundTrip(t: Int64)
    ensures Signed(Unsigned(t)) == t
  {
  }

  /** A record signed by the key it names decodes to itself. */
  lemma RecordRoundTrip(be: Backend, v: Vrec, sk: seq<byte>)
    requires Encodable(v) && v.topic == be.digest(v.pubkey) && |be.sign(sk, SignedBytes(v))| == 64
    requires be.check(be.sign(sk, SignedBytes(v)), v.pubkey, SignedBytes(v))
    ensures DecodeRecord(be, RecordBytes(be, v, sk)) == Rec(Canonical(v))
    ensures Canonical(v) == v <==> IsLowerHash(v.root) && (v.prev == [] || (IsLowerHash(v.prev) && HexDecode(v.prev) != Nuls(32)))
  {
    Le64RoundTrip(v.num);
    Le64RoundTrip(Unsigned(v.time));
    TimeRoundTrip(v.time);
    HexEncodeOfDecode(v.root);
    if v.prev != [] {
      HexEncodeOfDecode(v.prev);
    }
    var sig := be.sign(sk, SignedBytes(v));
    SliceRecord(v.topic, v.pubkey, Le(v.num, 8), Le(Unsigned(v.time), 8), HexDecode(v.root), PrevBytes(v.prev), sig);
    hide Le, FromLe, HexEncode, HexDecode, Lower, IsHash, IsLowerHash, Signed, Unsigned;
  }

  lemma JoinFields(b: seq<byte>)
    requires |b| == VREC_LEN
    ensures b[..152] == b[..4] + b[4..8] + b[8..40] + b[40..72] + b[72..80] + b[80..88] + b[88..120] + b[120..152]
  {
  }

  lemma FieldsBack(b: seq<byte>)
    requires |b| == VREC_LEN
    ensures FromLe(b[72..80]) < U64 && Le(FromLe(b[72..80]), 8) == b[72..80]
    ensures FromLe(b[80..88]) < U64 && Le(Unsigned(Signed(FromLe(b[80..88]))), 8) == b[80..88]
    ensures IsHash(HexEncode(b[88..120])) && HexDecode(HexEncode(b[88..120])) == b[88..120]
  {
    LeOfFromLe(b[72..80]);
    LeOfFromLe(b[80..88]);
    Pow256Values();
    UnsignedOfSigned(FromLe(b[80..88]));
    HexDecodeOfEncode(b[88..120]);
    EncodedIsHash(b[88..120]);
  }

  lemma PrevBack(p: Digest)
    ensures var prev := if p == Nuls(32) then [] else HexEncode(p);
            (prev == [] || IsHash(prev)) && PrevBytes(prev) == p
  {
    HexDecodeOfEncode(p);
    EncodedIsHash(p);
  }

  /** Nothing else decodes to it: a record that decodes has exactly the signed
      bytes its fields encode to. */
  lemma DecodedBytes(be: Backend, b: seq<byte>)
    requires DecodeRecord(be, b).Rec?
    ensures var v := DecodeRecord(be, b).v;
            && Encodable(v) && v.topic == be.digest(v.pubkey) && b[..SIGNED_LEN] == SignedBytes(v)
            && be.check(b[SIGNED_LEN..], v.pubkey, SignedBytes(v))
  {
    FieldsBack(b);
    PrevBack(b[120..152]);
    JoinFields(b);
    hide Le, FromLe, HexEncode, HexDecode, IsHash, IsLowerHash, Signed, Unsigned, PrevBytes;
    var v := DecodeRecord(be, b).v;
    assert b[..SIGNED_LEN] == SignedBytes(v);
  }

  /** When a record decodes, and what it is refused for. */
  lemma DecodesIff(be: Backend, b: seq<byte>)
    ensures var r := DecodeRecord(be, b);
            && (r == Fail(EBADFORM) <==> |b| != 216 || b[..8] != [0x56, 0x52, 0x76, 0x31, 0, 0, 0, 0])
            && (r != Fail(EBADFORM) ==>
                  && (r == Fail(EBADBIND) <==> be.digest(b[40..72]) != b[8..40])
                  && (r == Fail(EBADSIG) <==>
                        be.digest(b[40..72]) == b[8..40] && !be.check(b[152..], b[40..72], b[..152]))
                  && (r.Rec? <==> be.digest(b[40..72]) == b[8..40] && be.check(b[152..], b[40..72], b[..152])))
  {
    hide FromLe, HexEncode, Signed;
    if |b| >= 8 {
      var magic: seq<byte> := [0x56, 0x52, 0x76, 0x31, 0, 0, 0, 0];
      assert b[..8] == b[..4] + b[4..8];
      FirstEight(MAGIC + Nuls(4));
      assert magic[..4] == MAGIC && magic[4..8] == Nuls(4);
    }
  }

  lemma UnsignedOfSigned(u: nat)
    requires u < U64
    ensures Unsigned(Signed(u)) == u
  {
  }

  lemma EncodedIsHash(d: Digest)
    ensures IsHash(HexEncode(d)) && HexEncode(d) != []
  {
    var h := HexEncode(d);
    forall i | 0 <= i < 64
      ensures IsHexDigit(h[i])
    {
      assert IsLowerHexDigit(h[i]);
    }
  }

  // ------------------------------------------------------------------
  // Succession
  // ------------------------------------------------------------------

  /** A record and the address it is stored at. */
  datatype Link = Link(v: Vrec, addr: Addr)

  /** cas_vrec_succeeds */
  function Succeeds(head: Option<Link>, cand: Vrec): Code
  {
    if head.None? then OK else
    var cur := head.value;
    if cur.v.topic != cand.topic then ETOPIC
    else if cand.num < cur.v.num then ESTALE
    else if cand.num == cur.v.num then
      if cand.root == cur.v.root && cand.prev == cur.v.prev && cand.time == cur.v.time then ESTALE else EFORK
    else if cand.num == (cur.v.num + 1) % U64 then
      if cand.prev != cur.addr then ECHAIN else OK
    else EGAP
  }

  /** b directly follows a: same topic, next number, linked by address. */
  predicate Follows(a: Link, b: Vrec)
  {
    b.topic == a.v.topic && b.num == a.v.num + 1 && b.prev == a.addr
  }

  /** Why a candidate is refused. */
  lemma RefusedFor(cur: Link, cand: Vrec)
    requires cand.num < U64
    ensures var c := Succeeds(Some(cur), cand); var same := cand.topic == cur.v.topic;
            && (c == ETOPIC <==> !same)
            && (c == ESTALE <==> same && (cand.num < cur.v.num || cand == cur.v.(pubkey := cand.pubkey)))
            && (c == EFORK <==> same && cand.num == cur.v.num && cand != cur.v.(pubkey := cand.pubkey))
            && (c == ECHAIN <==> same && cand.num == cur.v.num + 1 && cand.prev != cur.addr)
            && (c == EGAP <==> same && cand.num > cur.v.num + 1)
  {
  }

  /** A candidate is accepted over a head exactly when it follows it. */
  lemma AcceptedLinks(cur: Link, cand: Vrec)
    requires cand.num < U64
    ensures Succeeds(Some(cur), cand) == OK <==> Follows(cur, cand)
  {
  }

  // ------------------------------------------------------------------
  // Walking a chain
  // ------------------------------------------------------------------

  /** vchain_load */
  function LoadRecord(be: Backend, d: Depot, addr: Addr): Decoded
  {
    match Open(d, addr)
    case BadAddress => Fail(ERR)
    case Gone => Fail(ENOTFOUND)
    case Got(o) => if o.kind != VREC then Fail(ETYPE) else DecodeRecord(be, o.data)
  }

  /** Loading a record fails before decoding it in three cases. */
  lemma LoadCodes(be: Backend, d: Depot, addr: Addr)
    ensures var r := LoadRecord(be, d, addr);
            && (r == Fail(ERR) <==> Open(d, addr) == BadAddress)
            && (r == Fail(ENOTFOUND) <==> Open(d, addr) == Gone)
            && (r == Fail(ETYPE) <==> Open(d, addr).Got? && Open(d, addr).o.kind != "vrec")
            && (Open(d, addr).Got? && Open(d, addr).o.kind == "vrec" ==> r == DecodeRecord(be, Open(d, addr).o.data))
            && (r.Fail? ==> r.code !in {OK, ETOPIC, ECHAIN, EINCOMPLETE})
  {
    hide Open;
  }

  datatype Walked = Walked(visited: seq<Link>, code: Code)

  function Before(first: seq<Link>, w: Walked): Walked { Walked(first + w.visited, w.code) }

  lemma BeforeBefore(a: seq<Link>, b: seq<Link>, w: Walked)
    ensures Before(a, Before(b, w)) == Before(a + b, w)
  {
    assert a + (b + w.visited) == a + b + w.visited;
  }

  /** The records cas_vchain_walk visits from a loaded one on.  The sequence
      number falls by one at every link, so it ends. */
  function WalkFrom(be: Backend, d: Depot, v: Vrec, addr: Addr, stop: nat): Walked
    decreases v.num
  {
    hide DecodeRecord, Open;
    if v.num <= stop || v.prev == [] then Walked([Link(v, addr)], OK)
    else
      match LoadRecord(be, d, v.prev)
      case Fail(c) => Walked([Link(v, addr)], if c == ENOTFOUND then EINCOMPLETE else c)
      case Rec(p) =>
        if p.topic != v.topic then Walked([Link(v, addr)], ETOPIC)
        else if (p.num + 1) % U64 != v.num then Walked([Link(v, addr)], ECHAIN)
        else
          LoadedIsSmall(be, d, v.prev);
          Before([Link(v, addr)], WalkFrom(be, d, p, v.prev, stop))
  }

  lemma LoadedIsSmall(be: Backend, d: Depot, addr: Addr)
    requires LoadRecord(be, d, addr).Rec?
    ensures LoadRecord(be, d, addr).v.num < U64
  {
    hide DecodeRecord, Open;
    DecodedBytes(be, Open(d, addr).o.data);
  }

  /** Nothing is left to visit after v. */
  predicate WalkDone(v: Vrec, stop: nat) { v.num <= stop || v.prev == [] }

  /** A walk goes on from one record to another: it was not to stop there, the
      other is stored where the one says, and the one follows it. */
  ghost predicate GoesOn(be: Backend, d: Depot, a: Link, b: Link, stop: nat)
  {
    !WalkDone(a.v, stop) && LoadRecord(be, d, b.addr) == Rec(b.v) && Follows(b, a.v)
  }

  ghost predicate Chained(be: Backend, d: Depot, visited: seq<Link>, stop: nat)
  {
    forall i, j :: 0 <= i && j == i + 1 < |visited| ==> GoesOn(be, d, visited[i], visited[j], stop)
  }

  /** Why a walk ends at last: well, where it was asked to stop or where the chain
      begins; as incomplete, where the record before is missing. */
  ghost predicate EndsRight(be: Backend, d: Depot, last: Vrec, stop: nat, code: Code)
  {
    && (code == OK <==> WalkDone(last, stop))
    && (code == EINCOMPLETE <==> !WalkDone(last, stop) && Open(d, last.prev) == Gone)
    && (code != OK && code != EINCOMPLETE ==>
          var next := LoadRecord(be, d, last.prev);
          if next.Fail? then code == next.code
          else if next.v.topic != last.topic then code == ETOPIC
          else code == ECHAIN && next.v.num + 1 != last.num)
  }

  lemma ChainedFront(be: Backend, d: Depot, a: Link, rest: seq<Link>, stop: nat)
    requires rest != [] && GoesOn(be, d, a, rest[0], stop) && Chained(be, d, rest, stop)
    ensures Chained(be, d, [a] + rest, stop)
  {
    hide GoesOn;
    var all := [a] + rest;
    forall i, j | 0 <= i && j == i + 1 < |all|
      ensures GoesOn(be, d, all[i], all[j], stop)
    {
      if i > 0 {
        assert all[i] == rest[i - 1] && all[j] == rest[i];
      }
    }
  }

  lemma WalkFromStops(be: Backend, d: Depot, v: Vrec, addr: Addr, stop: nat)
    requires v.num < U64
    ensures var next := LoadRecord(be, d, v.prev); var w := WalkFrom(be, d, v, addr, stop);
            if !WalkDone(v, stop) && next.Rec? && next.v.topic == v.topic && next.v.num + 1 == v.num then
              w == Before([Link(v, addr)], WalkFrom(be, d, next.v, v.prev, stop))
            else
              w.visited == [Link(v, addr)] && EndsRight(be, d, v, stop, w.code)
  {
    LoadCodes(be, d, v.prev);
    hide Open, DecodeRecord;
    if LoadRecord(be, d, v.prev).Rec? {
      LoadedIsSmall(be, d, v.prev);
    }
    hide LoadRecord;
  }

  lemma {:induction false} WalkFromEnds(be: Backend, d: Depot, v: Vrec, addr: Addr, stop: nat)
    requires v.num < U64
    ensures var w := WalkFrom(be, d, v, addr, stop);
            && w.visited != [] && w.visited[0] == Link(v, addr)
            && Chained(be, d, w.visited, stop)
            && EndsRight(be, d, w.visited[|w.visited| - 1].v, stop, w.code)
    decreases v.num
  {
    hide Open, DecodeRecord, LoadRecord, EndsRight, WalkFrom, Chained;
    WalkFromStops(be, d, v, addr, stop);
    var next := LoadRecord(be, d, v.prev);
    if !WalkDone(v, stop) && next.Rec? && next.v.topic == v.topic && next.v.num + 1 == v.num {
      WalkFromEnds(be, d, next.v, v.prev, stop);
      ChainedFront(be, d, Link(v, addr), WalkFrom(be, d, next.v, v.prev, stop).visited, stop);
    } else {
      ChainedAlone(be, d, Link(v, addr), stop);
    }
  }

  lemma ChainedAlone(be: Backend, d: Depot, a: Link, stop: nat)
    ensures Chained(be, d, [a], stop)
  {
  }
}
