/** The log and root files of one ref (cas-tree.c: cas_tree_ref_read,
    cas_tree_ref_commit, cas_tree_log_read, cas_tree_log_truncate). */
module Refs {
  import opened Bytes
  import opened Entries
  import opened TreeText

  const BUFFER: nat := 1023          // fgets into a 1024-byte line buffer
  const HASH_HEX: nat := 64

  datatype LogEntry = LogEntry(root: seq<byte>, timeS: Int64, timeNs: Int32, comment: seq<byte>)

  // ------------------------------------------------------------------
  // Reading
  // ------------------------------------------------------------------

  /** One fgets of the log: a whole line of the given length in the file, a torn
      tail, or a line that does not fit the buffer or holds a NUL. */
  datatype Next = Whole(line: seq<byte>, taken: nat) | Torn | Broken

  /** How many bytes one fgets takes. */
  function Taken(s: seq<byte>): (n: nat)
    requires s != []
    ensures 0 < n <= |s| && n <= BUFFER
  {
    var nl := NewlineAt(s);
    if nl + 1 <= BUFFER && nl < |s| then nl + 1 else if |s| < BUFFER then |s| else BUFFER
  }

  /** Whether it stops at the end of the file. */
  predicate AtEnd(s: seq<byte>) { NewlineAt(s) == |s| && |s| < BUFFER }

  function NextLine(s: seq<byte>): (r: Next)
    requires s != []
    ensures r.Whole? ==> 0 < r.taken <= |s|
  {
    Strip(s[..Taken(s)], AtEnd(s))
  }

  function Strip(chunk: seq<byte>, atEnd: bool): Next
  {
    var line := CString(chunk);
    if line == [] then Whole([], |chunk|)
    else if line[|line| - 1] == NEWLINE then Whole(line[..|line| - 1], |chunk|)
    else if atEnd then Torn
    else Broken
  }

  /** The fields of a line as cas_tree_log_read scans them. */
  function ParseLine(line: seq<byte>): Option<LogEntry>
  {
    if |line| < HASH_HEX + 1 || line[HASH_HEX] != SPACE then None else
    var s := line[HASH_HEX + 1..];
    var t := ScanNumber(s, 0, 10);
    if t.None? then None else
    var ns := ScanNumber(s, t.value.1, 10);
    if ns.None? then None else
    Some(LogEntry(line[..HASH_HEX], ToInt64(t.value.0), ToInt32(ns.value.0), s[SkipSpace(s, ns.value.1)..]))
  }

  /** The entries that reach the callback, and whether the end was reached. */
  datatype Delivered = Delivered(entries: seq<LogEntry>, ok: bool)

  function After(first: seq<LogEntry>, d: Delivered): Delivered { Delivered(first + d.entries, d.ok) }

  /** cas_tree_log_read */
  function ReadLog(s: seq<byte>): Delivered
    decreases |s|
  {
    if s == [] then Delivered([], true) else
    match NextLine(s)
    case Torn => Delivered([], true)
    case Broken => Delivered([], false)
    case Whole(line, n) =>
      var e := ParseLine(line);
      if e.None? then Delivered([], false) else After([e.value], ReadLog(s[n..]))
  }

  lemma AfterAfter(a: seq<LogEntry>, b: seq<LogEntry>, d: Delivered)
    ensures After(a, After(b, d)) == After(a + b, d)
  {
    assert a + (b + d.entries) == a + b + d.entries;
  }

  /** The loop of cas_tree_log_read, with a callback that never stops it. */
  method LogRead(data: seq<byte>) returns (r: Delivered)
    ensures r == ReadLog(data)
  {
    hide NextLine, ParseLine;
    var entries: seq<LogEntry> := [];
    var p := 0;
    assert data[0..] == data && [] + ReadLog(data).entries == ReadLog(data).entries;
    while p < |data|
      invariant p <= |data|
      invariant ReadLog(data) == After(entries, ReadLog(data[p..]))
    {
      assert entries + [] == entries;
      match NextLine(data[p..])
      case Torn =>
        return Delivered(entries, true);
      case Broken =>
        return Delivered(entries, false);
      case Whole(line, n) =>
        var e := ParseLine(line);
        if e.None? {
          return Delivered(entries, false);
        }
        assert data[p..][n..] == data[p + n..];
        AfterAfter(entries, [e.value], ReadLog(data[p + n..]));
        entries := entries + [e.value];
        p := p + n;
    }
    assert data[p..] == [] && entries + [] == entries;
    return Delivered(entries, true);
  }

  // ------------------------------------------------------------------
  // Appending
  // ------------------------------------------------------------------

  /** The line that a commit appends. */
  function LogLine(e: LogEntry): seq<byte>
  {
    e.root + [SPACE] + Decimal(e.timeS) + [SPACE] + Decimal(e.timeNs) + [SPACE] + e.comment + [NEWLINE]
  }

  /** The line of a commit: its root, its seconds and nanoseconds in decimal and its
      comment, with a space between each two, and a newline. */
  lemma LogLineAnswer(root: seq<byte>, comment: seq<byte>)
    ensures LogLine(LogEntry(root, 86400, -1, comment))
            == root + [0x20] + [0x38, 0x36, 0x34, 0x30, 0x30] + [0x20] + [0x2D, 0x31] + [0x20] + comment + [0x0A]
  {
    NumberAnswers();
    hide Decimal;
  }

  /** Every line is whole. */
  predicate Complete(s: seq<byte>) { s == [] || s[|s| - 1] == NEWLINE }

  /** A line with this text and its newline reads back as one line. */
  predicate Readable(line: seq<byte>) { Plain(line) && |line| + 1 <= BUFFER }

  lemma {:induction false} NewlineIn(s: seq<byte>, t: seq<byte>)
    requires NewlineAt(s) < |s|
    ensures NewlineAt(s + t) == NewlineAt(s)
  {
    var n := NewlineAt(s);
    assert (s + t)[n] == NEWLINE;
    assert forall i :: 0 <= i < n ==> (s + t)[i] == s[i];
  }

  lemma NextLineOf(line: seq<byte>, rest: seq<byte>)
    requires Readable(line)
    ensures NextLine(line + [NEWLINE] + rest) == Whole(line, |line| + 1)
  {
    var s := line + [NEWLINE] + rest;
    NewlineAfter(line, rest);
    assert s[..|line| + 1] == line + [NEWLINE];
    assert CString(line + [NEWLINE]) == line + [NEWLINE];
  }

  lemma NextLineAppend(s: seq<byte>, t: seq<byte>)
    requires NewlineAt(s) < |s|
    ensures NextLine(s + t) == NextLine(s)
  {
    hide Strip;
    NewlineIn(s, t);
    hide NewlineAt;
    assert (s + t)[..Taken(s)] == s[..Taken(s)];
  }

  lemma CompleteHasNewline(s: seq<byte>)
    requires Complete(s) && s != []
    ensures NewlineAt(s) < |s| && NextLine(s) != Torn
  {
    hide CString;
  }

  /** What follows a whole, readable log does not change how the log reads. */
  lemma {:induction false} ReadAppend(s: seq<byte>, t: seq<byte>)
    requires Complete(s) && ReadLog(s).ok
    ensures ReadLog(s + t) == After(ReadLog(s).entries, ReadLog(t))
    decreases |s|
  {
    hide ParseLine, NextLine, NewlineAt;
    if s == [] {
      assert s + t == t && [] + ReadLog(t).entries == ReadLog(t).entries;
    } else {
      CompleteHasNewline(s);
      NextLineAppend(s, t);
      var n := NextLine(s).taken;
      assert (s + t)[n..] == s[n..] + t;
      ReadAppend(s[n..], t);
      AfterAfter([ParseLine(NextLine(s).line).value], ReadLog(s[n..]).entries, ReadLog(t));
    }
  }

  lemma {:induction false} BrokenHides(s: seq<byte>, t: seq<byte>)
    requires Complete(s) && !ReadLog(s).ok
    ensures ReadLog(s + t) == ReadLog(s)
    decreases |s|
  {
    hide ParseLine, NextLine, NewlineAt;
    CompleteHasNewline(s);
    NextLineAppend(s, t);
    if NextLine(s).Whole? && ParseLine(NextLine(s).line).Some? {
      var n := NextLine(s).taken;
      assert (s + t)[n..] == s[n..] + t;
      BrokenHides(s[n..], t);
    }
  }

  /** What a commit that was cut off in mid-line leaves does not change how the log
      reads. */
  lemma TornTailIsIgnored(log: seq<byte>, tail: seq<byte>)
    requires Complete(log) && ReadLog(log).ok
    requires tail != [] && |tail| < 1023 && 0 !in tail && 0x0A !in tail
    ensures ReadLog(log + tail) == ReadLog(log)
  {
    ReadAppend(log, tail);
    assert NewlineAt(tail) == |tail| && tail[..|tail|] == tail;
    assert CString(tail) == tail && tail[|tail| - 1] != NEWLINE;
    assert NextLine(tail) == Torn;
    hide NextLine;
    assert ReadLog(log).entries + [] == ReadLog(log).entries;
  }

  lemma SliceLine(root: seq<byte>, t: seq<byte>, ns: seq<byte>, comment: seq<byte>)
    requires |root| == HASH_HEX
    ensures var s := t + [SPACE] + ns + [SPACE] + comment; var p := |t| + 1 + |ns|;
            var line := root + [SPACE] + s;
            && root + [SPACE] + t + [SPACE] + ns + [SPACE] + comment + [NEWLINE] == line + [NEWLINE]
            && |line| > HASH_HEX && line[HASH_HEX] == SPACE
            && line[HASH_HEX + 1..] == s && line[..HASH_HEX] == root
            && s[0..|t|] == t && s[|t|] == SPACE && s[|t| + 1..p] == ns && s[p] == SPACE
            && s[p + 1..] == comment
  {
  }

  lemma SkipToComment(s: seq<byte>, p: nat, comment: seq<byte>)
    requires p < |s| && s[p] == SPACE && s[p + 1..] == comment
    ensures s[SkipSpace(s, p)..] == comment[SkipSpace(comment, 0)..]
  {
    assert SkipSpace(s, p) == SkipSpace(s, p + 1);
    SkipSpaceShift(s, p + 1, 0);
    var k := SkipSpace(comment, 0);
    assert s[p + 1 + k..] == s[p + 1..][k..];
  }

  lemma ParsePrintedLine(e: LogEntry)
    requires |e.root| == HASH_HEX
    ensures var line := LogLine(e)[..|LogLine(e)| - 1];
            && LogLine(e) == line + [NEWLINE]
            && ParseLine(line) == Some(e.(comment := e.comment[SkipSpace(e.comment, 0)..]))
  {
    hide Decimal, ScanNumber, ToInt32, ToInt64, SkipSpace;
    var t, ns := Decimal(e.timeS), Decimal(e.timeNs);
    var s := t + [SPACE] + ns + [SPACE] + e.comment;
    var line := e.root + [SPACE] + s;
    SliceLine(e.root, t, ns, e.comment);
    assert LogLine(e)[..|LogLine(e)| - 1] == line;
    ScanDecimal(s, 0, e.timeS);
    ScanAfterSpace(s, |t|, e.timeNs);
    SkipToComment(s, |t| + 1 + |ns|, e.comment);
    WrapsNothing(e);
  }

  lemma WrapsNothing(e: LogEntry)
    ensures ToInt64(e.timeS) == e.timeS && ToInt32(e.timeNs) == e.timeNs
  {
  }

  lemma {:induction false} SkipSpaceShift(s: seq<byte>, p: nat, i: nat)
    requires p + i <= |s|
    ensures SkipSpace(s, p + i) == p + SkipSpace(s[p..], i)
    decreases |s| - p - i
  {
    if p + i < |s| && IsSpace(s[p + i]) {
      SkipSpaceShift(s, p, i + 1);
    }
  }

  /** What a commit's comment and length must be for its line to read back. */
  predicate Committable(e: LogEntry)
  {
    && NEWLINE !in e.comment && (e.comment == [] || !IsSpace(e.comment[0]))
    && |LogLine(e)| <= BUFFER
  }

  lemma LogLineIsPlain(e: LogEntry)
    requires IsHash(e.root) && 0 !in e.comment
    ensures |LogLine(e)| > 0 && LogLine(e)[|LogLine(e)| - 1] == NEWLINE
    ensures 0 !in LogLine(e)
    ensures Plain(LogLine(e)[..|LogLine(e)| - 1]) <==> NEWLINE !in e.comment
  {
    hide Decimal;
    DecimalIsPlain(e.timeS);
    DecimalIsPlain(e.timeNs);
    HexIsHashText(e.root);
    hide IsHash;
    var body := e.root + [SPACE] + Decimal(e.timeS) + [SPACE] + Decimal(e.timeNs) + [SPACE] + e.comment;
    assert LogLine(e)[..|LogLine(e)| - 1] == body;
    assert forall c :: c in e.comment ==> c in body;
  }

  /** The first line read from a text holds no newline. */
  lemma FirstLine(s: seq<byte>)
    requires s != [] && NextLine(s).Whole?
    ensures NEWLINE !in NextLine(s).line
  {
    var r := NextLine(s);
    var line := CString(s[..r.taken]);
    CStringPrefix(s[..r.taken]);
    if line != [] {
      assert forall i :: 0 <= i < |line| - 1 ==> line[i] == s[i];
      assert forall i :: 0 <= i < |line| - 1 ==> s[i] != NEWLINE;
    }
  }

  lemma {:induction false} CStringPrefix(s: seq<byte>)
    ensures |CString(s)| <= |s| && forall i :: 0 <= i < |CString(s)| ==> CString(s)[i] == s[i]
  {
    if s != [] && s[0] != 0 {
      CStringPrefix(s[1..]);
    }
  }

  /** A committed line reads back as its entry, after those already there,
      exactly when the comment has no newline and no leading space and the line
      fits the reader's buffer. */
  lemma AppendedEntryReadsBack(log: seq<byte>, e: LogEntry)
    requires Complete(log) && ReadLog(log).ok && IsHash(e.root) && 0 !in e.comment
    ensures Complete(log + LogLine(e))
    ensures Committable(e) <==> ReadLog(log + LogLine(e)) == Delivered(ReadLog(log).entries + [e], true)
  {
    hide NextLine, ParseLine, LogLine, IsHash, ReadLog, Committable;
    ReadAppend(log, LogLine(e));
    LogLineIsPlain(e);
    OneLine(e);
    var prior, one := ReadLog(log).entries, ReadLog(LogLine(e)).entries;
    if prior + one == prior + [e] {
      assert one == (prior + one)[|prior|..] == (prior + [e])[|prior|..] == [e];
    }
  }

  /** A reader, and so a collection, sees a new commit exactly when every line
      before it is readable: one bad line hides all that follow, and
      cas_tree_gc does not look at the result of the read. */
  lemma CommitIsVisible(log: seq<byte>, e: LogEntry)
    requires Complete(log) && IsHash(e.root) && 0 !in e.comment && Committable(e)
    ensures ReadLog(log).ok <==> ReadLog(log + LogLine(e)).entries == ReadLog(log).entries + [e]
  {
    hide ReadLog, IsHash, LogLine, Committable;
    if ReadLog(log).ok {
      AppendedEntryReadsBack(log, e);
    } else {
      BrokenHides(log, LogLine(e));
      assert |ReadLog(log).entries + [e]| > |ReadLog(log).entries|;
    }
  }

  /** The limits in numbers: a commit without a newline or a leading space in its
      comment reads back exactly when its line, newline included, has at most 1023
      bytes. */
  lemma CommitFits(log: seq<byte>, e: LogEntry)
    requires Complete(log) && ReadLog(log).ok && IsHash(e.root) && 0 !in e.comment
    requires 0x0A !in e.comment && (e.comment != [] ==> e.comment[0] != 0x20 && !(0x09 <= e.comment[0] <= 0x0D))
    ensures |LogLine(e)| <= 1023 <==> ReadLog(log + LogLine(e)) == Delivered(ReadLog(log).entries + [e], true)
  {
    AppendedEntryReadsBack(log, e);
    hide IsHash, ReadLog, LogLine;
  }

  /** A line without a newline in it that fits is one entry; its comment loses
      leading spaces. */
  lemma PlainLineReads(e: LogEntry)
    requires IsHash(e.root) && 0 !in e.comment && NEWLINE !in e.comment && |LogLine(e)| <= BUFFER
    ensures ReadLog(LogLine(e)) == Delivered([e.(comment := e.comment[SkipSpace(e.comment, 0)..])], true)
  {
    hide IsHash, CString, NewlineAt, NextLine, ParseLine, LogLine, SkipSpace;
    var text := LogLine(e);
    LogLineIsPlain(e);
    var line := text[..|text| - 1];
    IsHashLength(e.root);
    ParsePrintedLine(e);
    NextLineOf(line, []);
    assert line + [NEWLINE] + [] == text;
    assert text[|text|..] == [];
    assert ReadLog([]) == Delivered([], true);
  }

  lemma IsHashLength(h: seq<byte>)
    requires IsHash(h)
    ensures |h| == HASH_HEX
  {
  }

  lemma OneLine(e: LogEntry)
    requires IsHash(e.root) && 0 !in e.comment
    ensures Committable(e) <==> ReadLog(LogLine(e)) == Delivered([e], true)
  {
    hide IsHash, LogLine, ReadLog;
    LogLineIsPlain(e);
    if NEWLINE in e.comment {
      NewlineSplits(e);
    } else if |LogLine(e)| > BUFFER {
      TooLong(LogLine(e));
    } else {
      PlainLineReads(e);
      var k := SkipSpace(e.comment, 0);
      SkipSpaceStops(e.comment, 0);
      assert e.comment[k..] == e.comment <==> k == 0;
    }
  }

  lemma NewlineSplits(e: LogEntry)
    requires NEWLINE in e.comment && LogLine(e) != []
    ensures ReadLog(LogLine(e)).entries != [e]
  {
    hide LogLine, NextLine, ScanNumber;
    var s := LogLine(e);
    if NextLine(s).Whole? {
      FirstLine(s);
      var line := NextLine(s).line;
      var p := ParseLine(line);
      if p.Some? {
        assert forall c :: c in p.value.comment ==> c in line;
        assert p.value != e;
        assert ReadLog(s).entries[0] == p.value;
      }
    }
  }

  lemma TooLong(s: seq<byte>)
    requires |s| > BUFFER && Plain(s[..|s| - 1]) && s[|s| - 1] == NEWLINE
    ensures !ReadLog(s).ok
  {
    hide ParseLine, NextLine;
    var body := s[..|s| - 1];
    assert s == body + [NEWLINE] + [];
    LongLineBreaks(body, []);
  }

  lemma LongLineBreaks(line: seq<byte>, rest: seq<byte>)
    requires Plain(line) && |line| + 1 > BUFFER
    ensures NextLine(line + [NEWLINE] + rest) == Broken
  {
    var s := line + [NEWLINE] + rest;
    NewlineAfter(line, rest);
    assert s[..BUFFER] == line[..BUFFER];
    assert forall c :: c in line[..BUFFER] ==> c in line;
    assert line[..BUFFER][BUFFER - 1] in line[..BUFFER];
  }

  // ------------------------------------------------------------------
  // Which lines a commit can leave
  // ------------------------------------------------------------------

  /** A text cut at its newlines. */
  function Pieces(s: seq<byte>): (ps: seq<seq<byte>>)
    ensures ps != []
    decreases |s|
  {
    var k := NewlineAt(s);
    if k == |s| then [s] else [s[..k]] + Pieces(s[k + 1..])
  }

  /** A piece that reads as a line of its own. */
  predicate IsLine(p: seq<byte>) { |p| + 1 <= BUFFER && ParseLine(p).Some? }

  /** Reading lines one by one, up to the first that is not one. */
  function ReadPieces(ps: seq<seq<byte>>): (r: Delivered)
    ensures r.ok <==> forall i :: 0 <= i < |ps| ==> IsLine(ps[i])
    ensures r.ok ==> |r.entries| == |ps| && forall i :: 0 <= i < |ps| ==> ParseLine(ps[i]) == Some(r.entries[i])
  {
    hide ParseLine;
    if ps == [] then Delivered([], true)
    else if !IsLine(ps[0]) then Delivered([], false)
    else After([ParseLine(ps[0]).value], ReadPieces(ps[1..]))
  }

  /** A text without NULs, ended by a newline, reads piece by piece. */
  lemma {:induction false} TextReads(s: seq<byte>)
    requires 0 !in s
    ensures ReadLog(s + [NEWLINE]) == ReadPieces(Pieces(s))
    decreases |s|
  {
    hide ParseLine, NextLine, NewlineAt;
    var k := NewlineAt(s);
    var line := s[..k];
    assert Plain(line);
    var rest := if k == |s| then [] else s[k + 1..] + [NEWLINE];
    assert s + [NEWLINE] == line + [NEWLINE] + rest;
    if |line| + 1 <= BUFFER {
      NextLineOf(line, rest);
      assert (s + [NEWLINE])[k + 1..] == rest;
    } else {
      LongLineBreaks(line, rest);
    }
    if k == |s| {
      assert line == s && Pieces(s)[1..] == [];
      EmptyLog();
    } else {
      TextReads(s[k + 1..]);
      assert Pieces(s)[1..] == Pieces(s[k + 1..]);
    }
  }

  /** What a commit's line says before its comment. */
  function Head(e: LogEntry): seq<byte>
  {
    e.root + [SPACE] + Decimal(e.timeS) + [SPACE] + Decimal(e.timeNs) + [SPACE]
  }

  lemma NewlineIs(t: seq<byte>, n: nat)
    requires n <= |t| && (n < |t| ==> t[n] == NEWLINE) && forall i :: 0 <= i < n ==> t[i] != NEWLINE
    ensures NewlineAt(t) == n
  {
    var m := NewlineAt(t);
    assert m < |t| ==> t[m] == NEWLINE;
  }

  lemma {:induction false} PiecesAfter(head: seq<byte>, s: seq<byte>)
    requires NEWLINE !in head
    ensures Pieces(head + s) == [head + Pieces(s)[0]] + Pieces(s)[1..]
  {
    hide *;
    var k, t := NewlineAt(s), head + s;
    NewlineBehind(head, s);
    PiecesUnfold(s);
    PiecesUnfold(t);
    assert t[..|head| + k] == head + s[..k];
    if k < |s| {
      assert t[|head| + k + 1..] == s[k + 1..];
    }
  }

  lemma NewlineBehind(head: seq<byte>, s: seq<byte>)
    requires NEWLINE !in head
    ensures NewlineAt(head + s) == |head| + NewlineAt(s)
  {
    var t := head + s;
    assert forall i :: 0 <= i < |t| ==> t[i] == if i < |head| then head[i] else s[i - |head|];
    NewlineIs(t, |head| + NewlineAt(s));
  }

  lemma {:induction false} PiecesUnfold(s: seq<byte>)
    ensures var k := NewlineAt(s); Pieces(s) == if k == |s| then [s] else [s[..k]] + Pieces(s[k + 1..])
  {
    hide NewlineAt;
  }

  /** The comment's first line fits with what goes before it, and each further
      line is a log line itself. */
  predicate LineReads(e: LogEntry)
  {
    var ps := Pieces(e.comment);
    |Head(e)| + |ps[0]| + 1 <= BUFFER && forall i :: 1 <= i < |ps| ==> IsLine(ps[i])
  }

  lemma CommittedPieces(e: LogEntry)
    requires IsHash(e.root) && 0 !in e.comment
    ensures var ps := Pieces(e.comment);
            && ReadLog(LogLine(e)) == ReadPieces([Head(e) + ps[0]] + ps[1..])
            && ParseLine(Head(e) + ps[0]) == Some(e.(comment := ps[0][SkipSpace(ps[0], 0)..]))
  {
    hide IsHash, ParseLine, ReadLog, ReadPieces, NewlineAt, SkipSpace, Decimal;
    IsHashLength(e.root);
    var ps := Pieces(e.comment);
    FirstPiece(e.comment);
    var first := e.(comment := ps[0]);
    LogLineIsPlain(e);
    LogLineIsPlain(first);
    ParsePrintedLine(first);
    assert LogLine(first) == Head(e) + ps[0] + [NEWLINE];
    assert LogLine(first)[..|LogLine(first)| - 1] == Head(e) + ps[0];
    assert LogLine(e) == Head(e) + e.comment + [NEWLINE];
    HeadIsPlain(e, ps[0]);
    TextReads(Head(e) + e.comment);
    PiecesAfter(Head(e), e.comment);
  }

  lemma FirstPiece(s: seq<byte>)
    requires 0 !in s
    ensures NEWLINE !in Pieces(s)[0] && 0 !in Pieces(s)[0]
  {
  }

  lemma HeadIsPlain(e: LogEntry, p: seq<byte>)
    requires Plain(Head(e) + p)
    ensures Plain(Head(e))
  {
    assert forall c :: c in Head(e) ==> c in Head(e) + p;
  }

  /** A commit leaves a readable log readable exactly when LineReads holds of it.
      The reader then delivers its first line, without leading spaces, and every
      further line as an entry of its own. */
  lemma CommittedLineReadsIff(log: seq<byte>, e: LogEntry)
    requires Complete(log) && ReadLog(log).ok && IsHash(e.root) && 0 !in e.comment
    ensures var ps := Pieces(e.comment); var r := ReadLog(log + LogLine(e)); var n := |ReadLog(log).entries|;
            && (r.ok <==> LineReads(e))
            && (r.ok ==>
                  && |r.entries| == n + |ps| && r.entries[..n] == ReadLog(log).entries
                  && r.entries[n] == e.(comment := ps[0][SkipSpace(ps[0], 0)..])
                  && forall i :: 1 <= i < |ps| ==> ParseLine(ps[i]) == Some(r.entries[n + i]))
  {
    hide IsHash, ParseLine, ReadLog, NewlineAt, SkipSpace, LogLine, Complete, Pieces;
    ReadAppend(log, LogLine(e));
    CommittedPieces(e);
    var ps := Pieces(e.comment);
    var all := [Head(e) + ps[0]] + ps[1..];
    var one := ReadPieces(all);
    assert forall i :: 1 <= i < |ps| ==> all[i] == ps[i];
    assert IsLine(all[0]) <==> |Head(e)| + |ps[0]| + 1 <= BUFFER;
  }

  lemma OnePiece(s: seq<byte>)
    requires NEWLINE !in s
    ensures Pieces(s) == [s]
  {
    NewlineIs(s, |s|);
  }

  lemma LeadingNewline(s: seq<byte>)
    requires NEWLINE !in s
    ensures var t := [NEWLINE] + s; Pieces(t) == [t[..0], s]
  {
    var t := [NEWLINE] + s;
    OnePiece(s);
    NewlineIs(t, 0);
    assert t[1..] == s;
  }

  lemma HeadIsShort(e: LogEntry)
    requires IsHash(e.root) && e.timeS == e.timeNs == 0
    ensures |Head(e)| < 100
  {
    IsHashLength(e.root);
    hide IsHash;
    assert |Digits(0, 10)| == 1;
  }

  lemma {:induction false} TwoPieces(e: LogEntry, a: seq<byte>, b: seq<byte>)
    requires IsHash(e.root) && 0 !in e.comment && Pieces(e.comment) == [a, b] && |Head(e)| + |a| + 1 <= BUFFER
    requires SkipSpace(a, 0) == 0
    ensures ReadLog(LogLine(e))
            == if IsLine(b) then Delivered([e.(comment := a), ParseLine(b).value], true) else Delivered([e.(comment := a)], false)
  {
    hide *;
    CommittedPieces(e);
    assert a[0..] == a;
    var first := Head(e) + a;
    assert [first] + Pieces(e.comment)[1..] == [first, b];
    LineIs(first);
    ReadsTwo(first, b);
  }

  lemma {:induction false} ReadsTwo(first: seq<byte>, b: seq<byte>)
    requires IsLine(first)
    ensures ReadPieces([first, b])
            == if IsLine(b) then Delivered([ParseLine(first).value, ParseLine(b).value], true)
               else Delivered([ParseLine(first).value], false)
  {
    hide ReadPieces, ParseLine;
    ReadsPieces([first, b]);
    ReadsPieces([b]);
    ReadsPieces([]);
    assert [first, b][1..] == [b] && [b][1..] == [];
  }

  lemma LineIs(p: seq<byte>)
    ensures IsLine(p) <==> |p| + 1 <= BUFFER && ParseLine(p).Some?
  {
    hide ParseLine;
  }

  lemma {:induction false} ReadsPieces(ps: seq<seq<byte>>)
    ensures ReadPieces(ps)
            == if ps == [] then Delivered([], true)
               else if !IsLine(ps[0]) then Delivered([], false)
               else After([ParseLine(ps[0]).value], ReadPieces(ps[1..]))
  {
    hide ParseLine;
  }

  /** A comment of two lines, the second no log line: the log no longer reads. */
  lemma NewlineBreaksTheLog(root: seq<byte>)
    requires IsHash(root)
    ensures var e := LogEntry(root, 0, 0, [0x78, NEWLINE, 0x79]);
            ReadLog(LogLine(e)) == Delivered([e.(comment := [0x78])], false)
  {
    var e := LogEntry(root, 0, 0, [0x78, NEWLINE, 0x79]);
    assert e.comment[..1] == [0x78] && e.comment[2..] == [0x79];
    OnePiece([0x79]);
    NewlineIs(e.comment, 1);
    assert Pieces(e.comment) == [[0x78], [0x79]];
    assert SkipSpace([0x78], 0) == 0 && !IsLine([0x79]);
    hide IsHash, ParseLine, ReadLog, NewlineAt, Pieces, SkipSpace, LogLine, IsLine, Head;
    HeadIsShort(e);
    TwoPieces(e, [0x78], [0x79]);
  }

  /** A second line that is a log line reads as a commit nobody made. */
  lemma NewlineForgesAnEntry(root: seq<byte>, forged: LogEntry)
    requires IsHash(root) && IsHash(forged.root) && Committable(forged) && 0 !in forged.comment
    ensures var e := LogEntry(root, 0, 0, [NEWLINE] + LogLine(forged)[..|LogLine(forged)| - 1]);
            ReadLog(LogLine(e)) == Delivered([e.(comment := e.comment[..0]), forged], true)
  {
    var text := LogLine(forged)[..|LogLine(forged)| - 1];
    var e := LogEntry(root, 0, 0, [NEWLINE] + text);
    ForgedLine(forged, text);
    LeadingNewline(text);
    assert SkipSpace(e.comment[..0], 0) == 0;
    hide *;
    SmallHead(e);
    TwoPieces(e, e.comment[..0], text);
  }

  lemma SmallHead(e: LogEntry)
    requires IsHash(e.root) && e.timeS == e.timeNs == 0
    ensures |Head(e)| + 1 <= BUFFER
  {
    hide IsHash, Head;
    HeadIsShort(e);
  }

  lemma ForgedLine(forged: LogEntry, text: seq<byte>)
    requires IsHash(forged.root) && Committable(forged) && 0 !in forged.comment
    requires LogLine(forged) != [] && text == LogLine(forged)[..|LogLine(forged)| - 1]
    ensures NEWLINE !in text && 0 !in text && IsLine(text) && ParseLine(text) == Some(forged)
  {
    LogLineIsPlain(forged);
    IsHashLength(forged.root);
    ParsePrintedLine(forged);
    SkipSpaceStops(forged.comment, 0);
    hide IsHash, ParseLine, LogLine, SkipSpace;
    assert forged.comment[0..] == forged.comment;
  }

  lemma NewlineAfter(line: seq<byte>, rest: seq<byte>)
    requires Plain(line)
    ensures NewlineAt(line + [NEWLINE] + rest) == |line|
  {
    var s := line + [NEWLINE] + rest;
    var nl := NewlineAt(s);
    assert s[|line|] == NEWLINE;
    forall i | 0 <= i < |line|
      ensures s[i] != NEWLINE
    {
      assert s[i] == line[i] && line[i] in line;
    }
  }

  // ------------------------------------------------------------------
  // Truncation
  // ------------------------------------------------------------------

  datatype TimedLine = TimedLine(text: seq<byte>, time: Int64)

  datatype Slurped = Slurped(lines: seq<TimedLine>, ok: bool)

  /** log_line_time: less is asked of a line than cas_tree_log_read asks. */
  function LineTime(line: seq<byte>): Option<Int64>
  {
    if |line| < HASH_HEX + 1 || line[HASH_HEX] != SPACE then None else
    var t := ScanNumber(line[HASH_HEX + 1..], 0, 10);
    if t.None? then None else Some(ToInt64(t.value.0))
  }

  /** The lines cas_tree_log_truncate reads into memory. */
  function Slurp(s: seq<byte>): Slurped
    decreases |s|
  {
    if s == [] then Slurped([], true) else
    match NextLine(s)
    case Torn => Slurped([], true)
    case Broken => Slurped([], false)
    case Whole(line, n) =>
      var t := LineTime(line);
      if t.None? then Slurped([], false) else
      var rest := Slurp(s[n..]);
      Slurped([TimedLine(line, t.value)] + rest.lines, rest.ok)
  }

  /** What survives: the newest, and whatever either bound allows. */
  predicate Keep(count: nat, i: nat, time: int, keepCount: int, keepSince: int)
  {
    i == count - 1 || (keepCount > 0 && i >= count - keepCount) || (keepSince > 0 && time >= keepSince)
  }

  function KeptLines(lines: seq<TimedLine>, n: nat, keepCount: int, keepSince: int): (r: seq<TimedLine>)
    requires n <= |lines|
    ensures |r| <= n
  {
    if n == 0 then []
    else KeptLines(lines, n - 1, keepCount, keepSince)
         + if Keep(|lines|, n - 1, lines[n - 1].time, keepCount, keepSince) then [lines[n - 1]] else []
  }

  function Join(lines: seq<TimedLine>): seq<byte>
  {
    if lines == [] then [] else Join(lines[..|lines| - 1]) + lines[|lines| - 1].text + [NEWLINE]
  }

  datatype Truncation = Refused | NoLog | BadLog | Truncated(log: seq<byte>, removed: nat)

  function Truncate(log: Option<seq<byte>>, keepCount: int, keepSince: int): Truncation
  {
    if keepCount <= 0 && keepSince <= 0 then Refused
    else if log.None? then NoLog
    else
      var s := Slurp(log.value);
      if !s.ok then BadLog else
      var kept := KeptLines(s.lines, |s.lines|, keepCount, keepSince);
      Truncated(if |kept| == |s.lines| then log.value else Join(kept), |s.lines| - |kept|)
  }

  /** The entries of a log that survive, in their order. */
  function Kept(es: seq<LogEntry>, n: nat, keepCount: int, keepSince: int): (r: seq<LogEntry>)
    requires n <= |es|
    ensures |r| <= n
  {
    if n == 0 then []
    else Kept(es, n - 1, keepCount, keepSince)
         + if Keep(|es|, n - 1, es[n - 1].timeS, keepCount, keepSince) then [es[n - 1]] else []
  }

  /** The lines are readable and hold these entries. */
  ghost predicate Hold(lines: seq<TimedLine>, es: seq<LogEntry>)
  {
    |lines| == |es|
    && forall i :: 0 <= i < |lines| ==>
         Readable(lines[i].text) && ParseLine(lines[i].text) == Some(es[i]) && lines[i].time == es[i].timeS
  }

  lemma ParsedTime(line: seq<byte>)
    requires ParseLine(line).Some?
    ensures LineTime(line) == Some(ParseLine(line).value.timeS)
  {
    hide ScanNumber, SkipSpace, ToInt32, ToInt64;
  }

  lemma WholeLineIsReadable(s: seq<byte>)
    requires s != [] && NextLine(s).Whole? && NextLine(s).line != []
    ensures Readable(NextLine(s).line)
  {
    FirstLine(s);
    hide NewlineAt;
    var line := CString(s[..Taken(s)]);
    assert forall c :: c in NextLine(s).line ==> c in line;
  }

  lemma {:induction false} SlurpHolds(s: seq<byte>)
    requires ReadLog(s).ok
    ensures Slurp(s).ok && Hold(Slurp(s).lines, ReadLog(s).entries)
    decreases |s|
  {
    hide NextLine, Readable, LineTime, ScanNumber;
    if s != [] && NextLine(s).Whole? {
      var line, n := NextLine(s).line, NextLine(s).taken;
      ParsedTime(line);
      WholeLineIsReadable(s);
      hide ParseLine;
      SlurpHolds(s[n..]);
    }
  }

  lemma OneLineReads(line: seq<byte>, e: LogEntry)
    requires Readable(line) && ParseLine(line) == Some(e)
    ensures ReadLog(line + [NEWLINE]) == Delivered([e], true)
  {
    hide ParseLine, NextLine, Readable;
    NextLineOf(line, []);
    var s := line + [NEWLINE];
    assert s + [] == s && s[|s|..] == [];
    assert ReadLog([]) == Delivered([], true);
  }

  lemma {:induction false} JoinReads(lines: seq<TimedLine>, es: seq<LogEntry>)
    requires Hold(lines, es)
    ensures Complete(Join(lines)) && ReadLog(Join(lines)) == Delivered(es, true)
    decreases |lines|
  {
    hide ParseLine, Readable, ReadLog;
    if lines == [] {
      assert ReadLog([]) == Delivered([], true) by { EmptyLog(); }
    } else {
      var n := |lines| - 1;
      JoinReads(lines[..n], es[..n]);
      OneLineReads(lines[n].text, es[n]);
      var init := Join(lines[..n]);
      ReadAppend(init, lines[n].text + [NEWLINE]);
      assert init + (lines[n].text + [NEWLINE]) == Join(lines);
      assert es == es[..n] + [es[n]];
    }
  }

  lemma EmptyLog()
    ensures ReadLog([]) == Delivered([], true)
  {
  }

  lemma {:induction false} KeptHold(lines: seq<TimedLine>, es: seq<LogEntry>, n: nat, keepCount: int, keepSince: int)
    requires Hold(lines, es) && n <= |lines|
    ensures Hold(KeptLines(lines, n, keepCount, keepSince), Kept(es, n, keepCount, keepSince))
    ensures |Kept(es, n, keepCount, keepSince)| == n ==> Kept(es, n, keepCount, keepSince) == es[..n]
  {
    hide ParseLine, Readable;
    if n > 0 {
      KeptHold(lines, es, n - 1, keepCount, keepSince);
      assert es[..n] == es[..n - 1] + [es[n - 1]];
    }
  }

  /** On a log that reads, truncation keeps exactly the entries that Keep
      allows, in order, and leaves a log that reads. */
  lemma TruncationFilters(log: seq<byte>, keepCount: int, keepSince: int)
    requires Complete(log) && ReadLog(log).ok && (keepCount > 0 || keepSince > 0)
    ensures var es := ReadLog(log).entries; var kept := Kept(es, |es|, keepCount, keepSince);
            var r := Truncate(Some(log), keepCount, keepSince);
            && r.Truncated? && r.removed == |es| - |kept|
            && Complete(r.log) && ReadLog(r.log) == Delivered(kept, true)
  {
    hide ReadLog, Slurp, Hold, Complete;
    var es, lines := ReadLog(log).entries, Slurp(log).lines;
    SlurpHolds(log);
    SameLength(lines, es);
    KeptHold(lines, es, |es|, keepCount, keepSince);
    var kl := KeptLines(lines, |es|, keepCount, keepSince);
    SameLength(kl, Kept(es, |es|, keepCount, keepSince));
    JoinReads(kl, Kept(es, |es|, keepCount, keepSince));
    assert es[..|es|] == es;
  }

  lemma SameLength(lines: seq<TimedLine>, es: seq<LogEntry>)
    requires Hold(lines, es)
    ensures |lines| == |es|
  {
    hide ParseLine, Readable;
  }

  /** The newest entry always survives. */
  lemma NewestIsKept(es: seq<LogEntry>, keepCount: int, keepSince: int)
    requires es != []
    ensures var kept := Kept(es, |es|, keepCount, keepSince);
            kept != [] && kept[|kept| - 1] == es[|es| - 1]
  {
  }

  /** An entry survives exactly when it is newest or within a bound. */
  lemma {:induction false} KeptIff(es: seq<LogEntry>, n: nat, keepCount: int, keepSince: int, e: LogEntry)
    requires n <= |es|
    ensures e in Kept(es, n, keepCount, keepSince)
            <==> exists i :: 0 <= i < n && es[i] == e && Keep(|es|, i, e.timeS, keepCount, keepSince)
  {
    if n > 0 {
      KeptIff(es, n - 1, keepCount, keepSince, e);
    }
  }

  /** With a bound on the number alone the last that many survive. */
  lemma {:induction false} KeptByCount(es: seq<LogEntry>, n: nat, keepCount: int, keepSince: int)
    requires n <= |es| && keepSince <= 0 < keepCount
    ensures Kept(es, n, keepCount, keepSince) == if n <= |es| - keepCount then [] else es[Dropped(|es|, keepCount)..n]
    decreases n
  {
    if n > 0 {
      KeptByCount(es, n - 1, keepCount, keepSince);
      if n - 1 >= |es| - keepCount {
        assert es[Dropped(|es|, keepCount)..n] == es[Dropped(|es|, keepCount)..n - 1] + [es[n - 1]];
      }
    }
  }

  function Dropped(n: nat, keepCount: int): (d: nat)
    requires keepCount > 0
    ensures d <= n
  {
    if keepCount >= n then 0 else n - keepCount
  }

  /** Keeping by count keeps exactly the newest that many, all when there are no
      more. */
  lemma CountKeepsNewest(es: seq<LogEntry>, keepCount: int, keepSince: int)
    requires keepSince <= 0 < keepCount
    ensures Kept(es, |es|, keepCount, keepSince) == if keepCount >= |es| then es else es[|es| - keepCount..]
  {
    KeptByCount(es, |es|, keepCount, keepSince);
    assert es[0..|es|] == es;
  }

  /** Where each surviving entry comes from, with either bound or both: it is the
      newest, or among the newest keepCount, or no older than keepSince. */
  lemma SurvivesIff(es: seq<LogEntry>, keepCount: int, keepSince: int, e: LogEntry)
    requires keepCount > 0 || keepSince > 0
    ensures e in Kept(es, |es|, keepCount, keepSince)
            <==> exists i :: 0 <= i < |es| && es[i] == e
                   && (i == |es| - 1 || |es| - i <= keepCount || (0 < keepSince <= e.timeS))
  {
    KeptIff(es, |es|, keepCount, keepSince, e);
  }

  lemma AgeKeepsYoung(es: seq<LogEntry>, i: nat, keepCount: int, keepSince: int)
    requires keepCount <= 0 < keepSince && i < |es|
    requires forall j :: 0 <= j < |es| && j != i ==> es[j] != es[i]
    ensures es[i] in Kept(es, |es|, keepCount, keepSince) <==> i == |es| - 1 || es[i].timeS >= keepSince
  {
    KeptIff(es, |es|, keepCount, keepSince, es[i]);
  }

  /** A log that reads, truncated by count, then delivers its newest entries. */
  lemma TruncatedByCount(log: seq<byte>, keepCount: int)
    requires Complete(log) && ReadLog(log).ok && keepCount > 0
    ensures var es := ReadLog(log).entries; var r := Truncate(Some(log), keepCount, 0);
            && r.Truncated? && r.removed == (if keepCount >= |es| then 0 else |es| - keepCount)
            && ReadLog(r.log) == Delivered(if keepCount >= |es| then es else es[|es| - keepCount..], true)
  {
    hide ReadLog, Complete, Truncate, Kept;
    TruncationFilters(log, keepCount, 0);
    CountKeepsNewest(ReadLog(log).entries, keepCount, 0);
  }

  // ------------------------------------------------------------------
  // The files
  // ------------------------------------------------------------------

  datatype Files = Files(log: Option<seq<byte>>, root: Option<seq<byte>>, prev: Option<seq<byte>>, tmp: Option<seq<byte>>)

  const NO_FILES := Files(None, None, None, None)

  function LogText(f: Files): seq<byte> { if f.log.Some? then f.log.value else [] }

  /** cas_tree_ref_read: one fgets into 66 bytes, then the length test. */
  function ReadRoot(s: seq<byte>): Option<seq<byte>>
  {
    if s == [] then None else
    var nl := NewlineAt(s);
    var n := if nl < |s| && nl + 1 <= HASH_HEX + 1 then nl + 1 else if |s| < HASH_HEX + 1 then |s| else HASH_HEX + 1;
    var line := CString(s[..n]);
    var bare := if line != [] && line[|line| - 1] == NEWLINE then line[..|line| - 1] else line;
    if |bare| != HASH_HEX then None else Some(bare)
  }

  lemma RootReadsBack(h: seq<byte>)
    requires IsHash(h)
    ensures ReadRoot(h + [NEWLINE]) == Some(h)
  {
    HexIsHashText(h);
    NewlineAfter(h, []);
    var s := h + [NEWLINE];
    assert s + [] == s;
    assert s[..HASH_HEX + 1] == s;
    assert CString(s) == s;
  }

  /** A root file of one line, with or without its newline, is read exactly when the
      line has 64 bytes. */
  lemma RootTextIff(s: seq<byte>)
    requires s != [] && 0 !in s && 0x0A !in s
    ensures ReadRoot(s) == ReadRoot(s + [0x0A]) == if |s| == 64 then Some(s) else None
  {
    var t := s + [NEWLINE];
    NewlineAfter(s, []);
    assert t + [] == t;
    assert NewlineAt(s) == |s| && s[..|s|] == s && t[..|t|] == t;
    if |s| > 64 {
      assert t[..65] == s[..65];
      assert forall c :: c in s[..65] ==> c in s;
      assert CString(s[..65]) == s[..65] && s[..65][64] != NEWLINE;
    } else {
      assert CString(s) == s && CString(t) == t;
      assert t[..|s|] == s && s[|s| - 1] != NEWLINE;
    }
  }

  /** The files once a commit of e has made its first k changes: clear the
      temporary, append to the log, keep the previous root, write the temporary,
      rename it into place. */
  function CommitSteps(f: Files, e: LogEntry, k: nat): Files
  {
    var f1 := if k >= 1 then f.(tmp := None) else f;
    var f2 := if k >= 2 then f1.(log := Some(LogText(f) + LogLine(e))) else f1;
    var f3 := if k >= 3 && f.root.Some? then f2.(prev := f.root) else f2;
    var f4 := if k >= 4 then f3.(tmp := Some(e.root + [NEWLINE])) else f3;
    if k >= 5 then f4.(root := f4.tmp, tmp := None) else f4
  }

  /** What each file holds after the first k changes of a commit: the log has the
      new line after what it had from the second on, the root is the new one from
      the fifth on, and the previous root is kept from the third on. */
  lemma CommittedFiles(f: Files, e: LogEntry, k: nat)
    ensures var g := CommitSteps(f, e, k);
            && g.log == (if k < 2 then f.log else Some((if f.log.Some? then f.log.value else []) + LogLine(e)))
            && g.root == (if k < 5 then f.root else Some(e.root + [0x0A]))
            && g.prev == (if k < 3 || f.root.None? then f.prev else f.root)
            && g.tmp == (if k < 1 then f.tmp else if k == 4 then Some(e.root + [0x0A]) else None)
  {
    hide LogLine;
  }

  /** A completed commit is the newest entry of the log and the root, and the root
      before it the previous one. */
  lemma CommitDelivers(f: Files, e: LogEntry)
    requires f.log.Some? ==> Complete(f.log.value) && ReadLog(f.log.value).ok
    requires IsHash(e.root) && 0 !in e.comment && Committable(e)
    ensures var g := CommitSteps(f, e, 5); var prior := if f.log.Some? then ReadLog(f.log.value).entries else [];
            && g.log.Some? && ReadLog(g.log.value) == Delivered(prior + [e], true)
            && g.root.Some? && ReadRoot(g.root.value) == Some(e.root)
            && (f.root.Some? ==> g.prev == f.root)
  {
    EmptyLog();
    AppendedEntryReadsBack(LogText(f), e);
    RootReadsBack(e.root);
    hide IsHash, ReadLog, LogLine, Committable, ReadRoot, Complete;
  }

  /** When a truncation is refused, finds no log, or finds one that does not
      read. */
  lemma TruncateCodes(log: Option<seq<byte>>, keepCount: int, keepSince: int)
    ensures var r := Truncate(log, keepCount, keepSince);
            && (r == Refused <==> keepCount <= 0 && keepSince <= 0)
            && (r == NoLog <==> log == None && (keepCount > 0 || keepSince > 0))
            && (r == BadLog ==> log.Some? && !ReadLog(log.value).ok)
            && (r.Truncated? && r.removed == 0 ==> r.log == log.value)
  {
    hide ReadLog, Slurp, Join, KeptLines;
    if log.Some? && ReadLog(log.value).ok {
      SlurpHolds(log.value);
    }
  }

  class Ref {
    var log: Option<seq<byte>>
    var root: Option<seq<byte>>
    var prev: Option<seq<byte>>
    var tmp: Option<seq<byte>>

    ghost function F(): Files
      reads this
    {
      Files(log, root, prev, tmp)
    }

    constructor ()
      ensures F() == NO_FILES
    {
      log, root, prev, tmp := None, None, None, None;
    }

    /** cas_tree_ref_commit, stopped after its first steps file changes; five
        complete it. */
    method Commit(e: LogEntry, steps: nat) returns (accepted: bool, done: bool)
      modifies this
      ensures accepted <==> IsHash(e.root)
      ensures F() == if accepted then CommitSteps(old(F()), e, steps) else old(F())
      ensures done <==> accepted && steps >= 5
    {
      hide LogLine, IsHash;
      if !IsHash(e.root) {
        return false, false;
      }
      if steps == 0 {
        return true, false;
      }
      tmp := None;
      if steps == 1 {
        return true, false;
      }
      log := Some((if log.Some? then log.value else []) + LogLine(e));
      if steps == 2 {
        return true, false;
      }
      if root.Some? {
        prev := root;
      }
      if steps == 3 {
        return true, false;
      }
      tmp := Some(e.root + [NEWLINE]);
      if steps == 4 {
        return true, false;
      }
      root := tmp;
      tmp := None;
      return true, true;
    }

    /** cas_tree_log_truncate */
    method LogTruncate(keepCount: int, keepSince: int) returns (r: Truncation)
      modifies this`log
      ensures r == Truncate(old(log), keepCount, keepSince)
      ensures log == if r.Truncated? then Some(r.log) else old(log)
    {
      if keepCount <= 0 && keepSince <= 0 {
        return Refused;
      }
      if log.None? {
        return NoLog;
      }
      var s := ReadLines(log.value);
      if !s.ok {
        return BadLog;
      }
      var gone := CountGone(s.lines, keepCount, keepSince);
      if gone == 0 {
        return Truncated(log.value, 0);
      }
      var out := Rewrite(s.lines, keepCount, keepSince);
      log := Some(out);
      return Truncated(out, gone);
    }
  }

  /** The first decision loop of cas_tree_log_truncate. */
  method CountGone(lines: seq<TimedLine>, keepCount: int, keepSince: int) returns (gone: nat)
    ensures gone == |lines| - |KeptLines(lines, |lines|, keepCount, keepSince)|
  {
    var count := |lines|;
    var first := if 0 < keepCount < count then count - keepCount else 0;
    gone := 0;
    for i := 0 to count
      invariant gone == i - |KeptLines(lines, i, keepCount, keepSince)|
    {
      var keep := i == count - 1;
      if keepCount > 0 && i >= first {
        keep := true;
      }
      if keepSince > 0 && lines[i].time >= keepSince {
        keep := true;
      }
      if !keep {
        gone := gone + 1;
      }
    }
  }

  /** The second, which writes the lines that stay. */
  method Rewrite(lines: seq<TimedLine>, keepCount: int, keepSince: int) returns (out: seq<byte>)
    ensures out == Join(KeptLines(lines, |lines|, keepCount, keepSince))
  {
    var count := |lines|;
    var first := if 0 < keepCount < count then count - keepCount else 0;
    out := [];
    for i := 0 to count
      invariant out == Join(KeptLines(lines, i, keepCount, keepSince))
    {
      hide Join;
      var keep := i == count - 1;
      if keepCount > 0 && i >= first {
        keep := true;
      }
      if keepSince > 0 && lines[i].time >= keepSince {
        keep := true;
      }
      JoinOne(KeptLines(lines, i, keepCount, keepSince), lines[i]);
      if keep {
        out := out + lines[i].text + [NEWLINE];
      }
    }
  }

  lemma JoinOne(kept: seq<TimedLine>, line: TimedLine)
    ensures Join(kept + [line]) == Join(kept) + line.text + [NEWLINE]
    ensures kept + [] == kept
  {
    assert (kept + [line])[..|kept|] == kept;
  }

  /** The reading loop of cas_tree_log_truncate. */
  method ReadLines(data: seq<byte>) returns (r: Slurped)
    ensures r == Slurp(data)
  {
    hide NextLine, LineTime;
    var lines: seq<TimedLine> := [];
    var p := 0;
    assert data[0..] == data;
    while p < |data|
      invariant p <= |data|
      invariant Slurp(data).lines == lines + Slurp(data[p..]).lines && Slurp(data).ok == Slurp(data[p..]).ok
    {
      match NextLine(data[p..])
      case Torn =>
        return Slurped(lines, true);
      case Broken =>
        return Slurped(lines, false);
      case Whole(line, n) =>
        var t := LineTime(line);
        if t.None? {
          return Slurped(lines, false);
        }
        assert data[p..][n..] == data[p + n..];
        lines := lines + [TimedLine(line, t.value)];
        p := p + n;
    }
    return Slurped(lines, true);
  }
}
