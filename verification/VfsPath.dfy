/** Path text: normalization, parents, descendants (vfs.c). */
module VfsPath {
  import opened Bytes

  const SLASH: byte := 0x2F
  const DOT: byte := 0x2E
  const PATH_MAX: nat := 4096
  const ROOT: seq<byte> := [SLASH]

  type Path = seq<byte>

  // ------------------------------------------------------------------
  // Parents and descendants
  // ------------------------------------------------------------------

  /** strrchr(p, '/'), or -1 */
  function LastSlash(p: Path): (i: int)
    ensures -1 <= i < |p|
    ensures i >= 0 ==> p[i] == SLASH
    ensures forall k :: i < k < |p| ==> p[k] != SLASH
  {
    if p == [] then -1
    else if p[|p| - 1] == SLASH then |p| - 1
    else LastSlash(p[..|p| - 1])
  }

  /** Everything before the last component, empty for a top-level path. */
  function Stem(p: Path): (s: Path)
    ensures |s| <= |p| && (p != [] ==> |s| < |p|)
  {
    if LastSlash(p) < 0 then [] else p[..LastSlash(p)]
  }

  function Base(p: Path): seq<byte> { p[LastSlash(p) + 1..] }

  /** path_parent */
  function Parent(p: Path): Path { if Stem(p) == [] then ROOT else Stem(p) }

  function Child(d: Path, name: seq<byte>): Path { d + [SLASH] + name }

  lemma ChildParts(d: Path, name: seq<byte>)
    requires SLASH !in name
    ensures LastSlash(Child(d, name)) == |d| && Stem(Child(d, name)) == d && Base(Child(d, name)) == name
  {
    var p := Child(d, name);
    assert p[|d|] == SLASH;
    assert forall k :: |d| < k < |p| ==> p[k] == name[k - |d| - 1];
  }

  lemma PathParts(p: Path)
    requires LastSlash(p) >= 0
    ensures p == Child(Stem(p), Base(p)) && SLASH !in Base(p)
  {
  }

  /** strncmp(p, d, |d|) == 0 && p[|d|] == '/' */
  predicate Under(d: Path, p: Path) { |d| < |p| && p[..|d|] == d && p[|d|] == SLASH }

  lemma UnderIsLonger(o: Path, q: Path)
    ensures Under(o, q) ==> |q| > |o|
  {
  }

  /** A path is below d when its parent is d or is itself below d. */
  lemma UnderStem(d: Path, p: Path)
    requires LastSlash(p) >= 0
    ensures Under(d, p) <==> Stem(p) == d || Under(d, Stem(p))
  {
    var s := Stem(p);
    if Under(d, p) {
      if |d| < |s| {
        assert s[..|d|] == p[..|d|] && s[|d|] == p[|d|];
      } else {
        assert |d| == |s|;
      }
    }
    if Under(d, s) {
      assert p[..|d|] == s[..|d|] && p[|d|] == s[|d|];
    }
  }

  lemma UnderTransitive(a: Path, b: Path, c: Path)
    requires Under(a, b) && Under(b, c)
    ensures Under(a, c)
  {
    assert c[..|a|] == c[..|b|][..|a|];
    assert c[|a|] == c[..|b|][|a|];
  }

  // ------------------------------------------------------------------
  // Normalized paths
  // ------------------------------------------------------------------

  /** A component: not empty, no separator, neither "." nor "..". */
  predicate Component(c: seq<byte>)
  {
    c != [] && SLASH !in c && c != [DOT] && c != [DOT, DOT]
  }

  /** A normalized path other than the root. */
  predicate Normal(p: Path)
    decreases |p|
  {
    LastSlash(p) >= 0 && Component(Base(p)) && (Stem(p) == [] || Normal(Stem(p)))
  }

  lemma NormalChild(d: Path, name: seq<byte>)
    requires (d == [] || Normal(d)) && Component(name)
    ensures Normal(Child(d, name))
  {
    ChildParts(d, name);
  }

  lemma NormalNotRoot(p: Path)
    requires Normal(p)
    ensures p != ROOT && p != [] && p[0] == SLASH
    decreases |p|
  {
    if Stem(p) != [] {
      NormalNotRoot(Stem(p));
    }
  }

  function Join(cs: seq<seq<byte>>): Path
  {
    if cs == [] then [] else Child(Join(cs[..|cs| - 1]), cs[|cs| - 1])
  }

  predicate Components(cs: seq<seq<byte>>) { forall i :: 0 <= i < |cs| ==> Component(cs[i]) }

  lemma {:induction false} JoinIsNormal(cs: seq<seq<byte>>)
    requires Components(cs) && cs != []
    ensures Normal(Join(cs))
    decreases |cs|
  {
    hide Component;
    var n := |cs| - 1;
    if n > 0 {
      JoinIsNormal(cs[..n]);
    }
    assert Component(cs[n]);
    NormalChild(Join(cs[..n]), cs[n]);
  }

  /** The components of a normalized path. */
  function Names(p: Path): (cs: seq<seq<byte>>)
    requires p == [] || Normal(p)
    decreases |p|
  {
    if p == [] then [] else Names(Stem(p)) + [Base(p)]
  }

  lemma {:induction false} JoinOfNames(p: Path)
    requires p == [] || Normal(p)
    ensures Components(Names(p)) && Join(Names(p)) == p
    decreases |p|
  {
    if p != [] {
      JoinOfNames(Stem(p));
      PathParts(p);
      var cs := Names(p);
      assert cs[..|cs| - 1] == Names(Stem(p));
    }
  }

  // ------------------------------------------------------------------
  // vfs_normalize
  // ------------------------------------------------------------------

  /** The runs between separators, empty ones dropped. */
  function Tokens(s: Path): seq<seq<byte>>
    decreases |s|
  {
    hide Memchr;
    if s == [] then [] else
    var k := Memchr(s, SLASH);
    var rest := if k == |s| then [] else Tokens(s[k + 1..]);
    if k == 0 then rest else [s[..k]] + rest
  }

  /** One token against the stack of kept components. */
  function Push(stack: seq<seq<byte>>, tok: seq<byte>): seq<seq<byte>>
  {
    if tok == [DOT] then stack
    else if tok == [DOT, DOT] then if stack == [] then stack else stack[..|stack| - 1]
    else stack + [tok]
  }

  function PushAll(stack: seq<seq<byte>>, toks: seq<seq<byte>>): seq<seq<byte>>
    decreases |toks|
  {
    if toks == [] then stack else PushAll(Push(stack, toks[0]), toks[1..])
  }

  function PathText(cs: seq<seq<byte>>): Path { if cs == [] then ROOT else Join(cs) }

  /** What vfs_normalize makes of a C string, given room for it. */
  function Normalized(path: Path): Option<Path>
  {
    if path == [] || path[0] != SLASH || |path| >= PATH_MAX then None
    else Some(PathText(PushAll([], Tokens(path[1..]))))
  }

  /** One unfolding of Tokens. */
  lemma {:induction false} TokensUnfold(s: Path)
    ensures s == [] ==> Tokens(s) == []
    ensures s != [] ==>
              var k := Memchr(s, SLASH);
              var rest := if k == |s| then [] else Tokens(s[k + 1..]);
              Tokens(s) == if k == 0 then rest else [s[..k]] + rest
  {
    hide Memchr;
  }

  lemma {:induction false} TokensArePlain(s: Path)
    ensures forall i :: 0 <= i < |Tokens(s)| ==> Tokens(s)[i] != [] && SLASH !in Tokens(s)[i]
    decreases |s|
  {
    TokensUnfold(s);
    if s != [] {
      var k := Memchr(s, SLASH);
      assert SLASH !in s[..k];
      hide Memchr, Tokens;
      if k < |s| {
        TokensArePlain(s[k + 1..]);
      }
    }
  }

  lemma {:induction false} PushAllComponents(stack: seq<seq<byte>>, toks: seq<seq<byte>>)
    requires Components(stack) && forall i :: 0 <= i < |toks| ==> toks[i] != [] && SLASH !in toks[i]
    ensures Components(PushAll(stack, toks))
    decreases |toks|
  {
    if toks != [] {
      PushAllComponents(Push(stack, toks[0]), toks[1..]);
    }
  }

  /** Bytes a list of components takes as a path. */
  function Room(cs: seq<seq<byte>>): nat
  {
    if cs == [] then 0 else Room(cs[..|cs| - 1]) + 1 + |cs[|cs| - 1]|
  }

  lemma {:induction false} JoinLength(cs: seq<seq<byte>>)
    ensures |Join(cs)| == Room(cs)
    decreases |cs|
  {
    if cs != [] {
      JoinLength(cs[..|cs| - 1]);
    }
  }

  lemma {:induction false} RoomCons(c: seq<byte>, cs: seq<seq<byte>>)
    ensures Room([c] + cs) == 1 + |c| + Room(cs)
    decreases |cs|
  {
    var s := [c] + cs;
    if cs == [] {
      assert s[..0] == [];
    } else {
      assert s[..|s| - 1] == [c] + cs[..|cs| - 1];
      RoomCons(c, cs[..|cs| - 1]);
    }
  }

  lemma {:induction false} TokensFit(s: Path)
    ensures Room(Tokens(s)) <= |s| + 1
    decreases |s|
  {
    hide Room, Memchr, Tokens;
    RoomNone();
    TokensUnfold(s);
    if s != [] {
      var k := Memchr(s, SLASH);
      if k < |s| {
        TokensFit(s[k + 1..]);
      }
      if k > 0 {
        RoomCons(s[..k], if k == |s| then [] else Tokens(s[k + 1..]));
      }
    }
  }

  lemma RoomNone()
    ensures Room([]) == 0
  {
  }

  lemma {:induction false} PushAllFits(stack: seq<seq<byte>>, toks: seq<seq<byte>>)
    ensures Room(PushAll(stack, toks)) <= Room(stack) + Room(toks)
    decreases |toks|
  {
    if toks != [] {
      RoomCons(toks[0], toks[1..]);
      assert toks == [toks[0]] + toks[1..];
      var next := Push(stack, toks[0]);
      assert (stack + [toks[0]])[..|stack|] == stack;
      PushAllFits(next, toks[1..]);
    }
  }

  /** A normalized path is normal or the root, and no longer than its source, so
      it fits any buffer its source was copied to. */
  lemma NormalizedIsNormal(path: Path)
    requires Normalized(path).Some?
    ensures var q := Normalized(path).value; (q == ROOT || Normal(q)) && |q| <= |path|
  {
    hide Tokens, Component, Normal;
    var toks := Tokens(path[1..]);
    TokensArePlain(path[1..]);
    PushAllComponents([], toks);
    TokensFit(path[1..]);
    PushAllFits([], toks);
    var cs := PushAll([], toks);
    JoinLength(cs);
    if cs != [] {
      JoinIsNormal(cs);
    }
  }

  lemma NormalizedIsShort(path: Path)
    requires Normalized(path).Some?
    ensures |Normalized(path).value| < PATH_MAX
  {
    NormalizedIsNormal(path);
    hide Tokens, PushAll, PathText;
  }

  lemma {:induction false} PushAllKeeps(stack: seq<seq<byte>>, cs: seq<seq<byte>>)
    requires Components(cs)
    ensures PushAll(stack, cs) == stack + cs
    decreases |cs|
  {
    if cs != [] {
      assert Component(cs[0]);
      PushAllKeeps(stack + [cs[0]], cs[1..]);
    }
  }

  lemma TokensOfToken(c: seq<byte>, rest: Path)
    requires c != [] && SLASH !in c
    ensures Tokens(c + [SLASH] + rest) == [c] + Tokens(rest)
    ensures Tokens(c) == [c]
  {
    hide Tokens;
    MemchrAfter(c, SLASH, rest);
    var s := c + [SLASH] + rest;
    assert s[|c| + 1..] == rest && s[..|c|] == c;
    assert Memchr(c, SLASH) == |c|;
    assert c[..|c|] == c;
    TokensUnfold(s);
    TokensUnfold(c);
  }

  lemma FirstComponent(cs: seq<seq<byte>>)
    requires Components(cs) && cs != []
    ensures cs[0] != [] && SLASH !in cs[0] && Components(cs[1..])
  {
    assert Component(cs[0]);
    hide Component;
  }

  /** A component in front of a path adds its token. */
  lemma TokensGlue(c: seq<byte>, r: Path, tail: seq<seq<byte>>)
    requires c != [] && SLASH !in c
    requires if r == [] then tail == [] else r[0] == SLASH && Tokens(r[1..]) == tail
    ensures Tokens(c + r) == [c] + tail
  {
    hide Tokens;
    if r == [] {
      TokensOfToken(c, []);
      assert c + r == c;
    } else {
      TokensOfToken(c, r[1..]);
      assert c + r == c + [SLASH] + r[1..];
    }
  }

  lemma {:induction false} TokensOfJoin(cs: seq<seq<byte>>)
    requires Components(cs) && cs != []
    ensures Join(cs) != [] && Join(cs)[0] == SLASH
    ensures Tokens(Join(cs)[1..]) == cs
    decreases |cs|
  {
    hide Join, Tokens, Component, Components;
    var c, tail := cs[0], cs[1..];
    assert cs == [c] + tail;
    FirstComponent(cs);
    JoinCons(c, tail);
    JoinNone();
    var r := Join(tail);
    if tail != [] {
      TokensOfJoin(tail);
    }
    TokensGlue(c, r, tail);
    assert ([SLASH] + c + r)[1..] == c + r;
  }

  lemma JoinNone()
    ensures Join([]) == []
  {
  }

  lemma {:induction false} JoinCons(c: seq<byte>, tail: seq<seq<byte>>)
    ensures Join([c] + tail) == [SLASH] + c + Join(tail)
    decreases |tail|
  {
    var s := [c] + tail;
    if tail == [] {
      assert s[..0] == [];
    } else {
      assert s[..|s| - 1] == [c] + tail[..|tail| - 1];
      JoinCons(c, tail[..|tail| - 1]);
    }
  }

  lemma RootIsFixed()
    ensures Normalized(ROOT) == Some(ROOT)
  {
    assert ROOT[1..] == [];
    assert Tokens(ROOT[1..]) == [];
    assert PushAll([], []) == [];
  }

  /** Normalizing a normalized path changes nothing. */
  lemma NormalIsFixed(q: Path)
    requires (q == ROOT || Normal(q)) && |q| < PATH_MAX
    ensures Normalized(q) == Some(q)
  {
    if q == ROOT {
      RootIsFixed();
    } else {
      NormalNotRoot(q);
      JoinOfNames(q);
      var cs := Names(q);
      hide Join, Tokens, Normal, Component, PushAll, Names;
      JoinNone();
      TokensOfJoin(cs);
      PushAllKeeps([], cs);
      assert [] + cs == cs;
    }
  }

  /** vfs_normalize is idempotent. */
  lemma NormalizeTwice(path: Path)
    requires Normalized(path).Some?
    ensures Normalized(Normalized(path).value) == Normalized(path)
  {
    NormalizedIsNormal(path);
    NormalIsFixed(Normalized(path).value);
  }

  lemma {:induction false} TokensApart(a: Path, b: Path)
    ensures Tokens(a + [SLASH] + b) == Tokens(a) + Tokens(b)
    decreases |a|
  {
    hide *;
    if a == [] {
      assert (a + [SLASH] + b)[1..] == b;
      TokensAfterSlash(a + [SLASH] + b);
      TokensUnfold(a);
    } else {
      var k := Memchr(a, SLASH);
      if k < |a| {
        TokensApart(a[k + 1..], b);
      }
      TokensApartStep(a, b, k);
    }
  }

  lemma {:induction false} TokensApartStep(a: Path, b: Path, k: nat)
    requires a != [] && k == Memchr(a, SLASH)
    requires k < |a| ==> Tokens(a[k + 1..] + [SLASH] + b) == Tokens(a[k + 1..]) + Tokens(b)
    ensures Tokens(a + [SLASH] + b) == Tokens(a) + Tokens(b)
  {
    hide *;
    var s := a + ([SLASH] + b);
    assert s == a + [SLASH] + b;
    MemchrInFront(a, [SLASH] + b);
    TokensLead(a, k);
    TokensLead(s, k);
    if k < |a| {
      SliceApart(a, [SLASH] + b, k);
      assert a[k + 1..] + ([SLASH] + b) == a[k + 1..] + [SLASH] + b;
    } else {
      assert s[..k] == a[..k] && s[k + 1..] == b;
    }
  }

  lemma SliceApart(a: Path, t: Path, k: nat)
    requires k < |a|
    ensures (a + t)[..k] == a[..k] && (a + t)[k + 1..] == a[k + 1..] + t
  {
  }

  function Lead(s: Path): seq<seq<byte>> { if s == [] then [] else [s] }

  lemma {:induction false} TokensLead(s: Path, k: nat)
    requires s != [] && k == Memchr(s, SLASH)
    ensures Tokens(s) == Lead(s[..k]) + if k == |s| then [] else Tokens(s[k + 1..])
  {
    hide Tokens, Memchr;
    TokensUnfold(s);
  }

  lemma {:induction false} MemchrInFront(a: Path, t: Path)
    requires t != [] && t[0] == SLASH
    ensures Memchr(a + t, SLASH) == Memchr(a, SLASH)
  {
    var k := Memchr(a, SLASH);
    if k < |a| {
      MemchrAfter(a[..k], SLASH, a[k + 1..] + t);
      assert a + t == a[..k] + [SLASH] + (a[k + 1..] + t);
    } else {
      MemchrAfter(a, SLASH, t[1..]);
      assert a + t == a + [SLASH] + t[1..];
    }
  }

  lemma {:induction false} PushAllAppend(stack: seq<seq<byte>>, a: seq<seq<byte>>, tok: seq<byte>)
    ensures PushAll(stack, a + [tok]) == Push(PushAll(stack, a), tok)
    decreases |a|
  {
    hide Push;
    var s := a + [tok];
    if a == [] {
      assert s[1..] == [];
    } else {
      assert s[1..] == a[1..] + [tok];
      PushAllAppend(Push(stack, a[0]), a[1..], tok);
    }
  }

  lemma NormalizedPlus(cs: seq<seq<byte>>, tok: seq<byte>)
    requires Components(cs) && cs != [] && tok != [] && SLASH !in tok && |Child(Join(cs), tok)| < PATH_MAX
    ensures Normalized(Child(Join(cs), tok)) == Some(PathText(Push(cs, tok)))
  {
    hide Join, Tokens, Component, Components, PushAll, Push, PathText;
    var d := Join(cs);
    TokensOfJoin(cs);
    TokensApart(d[1..], tok);
    TokensOfToken(tok, []);
    assert Child(d, tok)[1..] == d[1..] + [SLASH] + tok;
    PushAllAppend([], cs, tok);
    PushAllKeeps([], cs);
    assert [] + cs == cs;
  }

  /** "." and ".." after a normalized path lead to it and to its parent. */
  lemma DotsGoBack(d: Path, tok: seq<byte>)
    requires Normal(d) && (tok == [DOT] || tok == [DOT, DOT]) && |Child(d, tok)| < PATH_MAX
    ensures Normalized(Child(d, tok)) == Some(if tok == [DOT] then d else Parent(d))
  {
    NormalNotRoot(d);
    JoinOfNames(d);
    var cs, up := Names(d), Names(Stem(d));
    JoinOfNames(Stem(d));
    assert cs == up + [Base(d)];
    hide Join, Normal, Component, Names, Stem, Base, Normalized, Components;
    NormalizedPlus(cs, tok);
    assert cs[..|cs| - 1] == up;
    JoinNone();
    if up != [] {
      JoinIsNormal(up);
      NormalNotRoot(Join(up));
    }
  }

  /** What a normalized path becomes with one more component after it: itself after
      nothing or a dot, its parent after two dots. */
  function Extended(q: Path, tok: seq<byte>): Path
  {
    if tok == [] || tok == [0x2E] then q
    else if tok == [0x2E, 0x2E] then if q == [0x2F] then [0x2F] else Parent(q)
    else if q == [0x2F] then [0x2F] + tok else q + [0x2F] + tok
  }

  /** Which paths normalize, and to what: the root to itself, and a longer path to
      what its last component makes of the rest. */
  lemma NormalizedIff(path: Path)
    ensures Normalized(path).Some? <==> path != [] && path[0] == 0x2F && |path| < 4096
    ensures Normalized([0x2F]) == Some([0x2F])
  {
    RootIsFixed();
    hide Tokens, PushAll, PathText;
  }

  lemma NormalizedAppend(path: Path, tok: seq<byte>)
    requires path != [] && path[0] == 0x2F && |path| + 1 + |tok| < 4096 && 0x2F !in tok
    ensures Normalized(path).Some?
    ensures Normalized(path + [0x2F] + tok) == Some(Extended(Normalized(path).value, tok))
  {
    hide Tokens, PushAll, Component, Join, Names;
    var rest := path[1..];
    var cs := PushAll([], Tokens(rest));
    TokensApart(rest, tok);
    assert (path + [SLASH] + tok)[1..] == rest + [SLASH] + tok;
    TokensArePlain(rest);
    PushAllComponents([], Tokens(rest));
    TokensUnfold(tok);
    if tok == [] {
      assert Tokens(rest) + Tokens(tok) == Tokens(rest);
    } else {
      TokensOfToken(tok, []);
      PushAllAppend([], Tokens(rest), tok);
      PushedText(cs, tok);
    }
  }

  lemma ParentOfJoin(cs: seq<seq<byte>>)
    requires Components(cs) && cs != []
    ensures Join(cs) != ROOT && Join(cs) != [] && Parent(Join(cs)) == PathText(cs[..|cs| - 1])
  {
    var up, last := cs[..|cs| - 1], cs[|cs| - 1];
    JoinIsNormal(cs);
    NormalNotRoot(Join(cs));
    assert Component(last);
    ChildParts(Join(up), last);
    JoinNone();
    if up != [] {
      JoinIsNormal(up);
      NormalNotRoot(Join(up));
    }
    hide Normal, Component;
  }

  lemma JoinPlus(cs: seq<seq<byte>>, tok: seq<byte>)
    ensures Join(cs + [tok]) == Child(Join(cs), tok)
  {
    assert (cs + [tok])[..|cs|] == cs;
  }

  lemma PushedText(cs: seq<seq<byte>>, tok: seq<byte>)
    requires Components(cs) && tok != [] && SLASH !in tok
    ensures PathText(Push(cs, tok)) == Extended(PathText(cs), tok)
  {
    hide Components, Component, Join, Parent;
    JoinNone();
    if tok == [DOT] {
    } else if tok == [DOT, DOT] {
      if cs != [] {
        ParentOfJoin(cs);
      }
    } else {
      PushedName(cs, tok);
    }
  }

  lemma PushedName(cs: seq<seq<byte>>, tok: seq<byte>)
    requires Components(cs) && tok != [] && tok != [DOT] && tok != [DOT, DOT]
    ensures PathText(Push(cs, tok)) == if cs == [] then [SLASH] + tok else Join(cs) + [SLASH] + tok
    ensures cs != [] ==> PathText(cs) == Join(cs) != ROOT
  {
    hide Components, Component, Join, Parent;
    JoinNone();
    JoinPlus(cs, tok);
    if cs != [] {
      ParentOfJoin(cs);
    }
  }

  lemma TokensAfterSlash(s: Path)
    requires s != [] && s[0] == SLASH
    ensures Tokens(s) == Tokens(s[1..])
  {
    hide Tokens;
    TokensUnfold(s);
    assert Memchr(s, SLASH) == 0;
    if |s| == 1 {
      TokensUnfold(s[1..]);
    }
  }

  /** The first token of what does not start with a separator. */
  lemma FirstToken(parts: seq<seq<byte>>, s: Path)
    requires s != [] && s[0] != SLASH
    ensures var k := Memchr(s, SLASH);
            k > 0 && PushAll(parts, Tokens(s)) == PushAll(Push(parts, s[..k]), if k == |s| then [] else Tokens(s[k + 1..]))
  {
    hide Push, Tokens;
    TokensUnfold(s);
    var k := Memchr(s, SLASH);
    var more := if k == |s| then [] else Tokens(s[k + 1..]);
    assert Tokens(s) == [s[..k]] + more;
    assert ([s[..k]] + more)[1..] == more;
  }

  lemma NoTokens(parts: seq<seq<byte>>)
    ensures PushAll(parts, []) == parts && Tokens([]) == []
  {
  }

  /** The tokenizing loop: strchr for each token, a stack of kept components. */
  method ResolveTokens(s: Path) returns (parts: seq<seq<byte>>)
    ensures parts == PushAll([], Tokens(s))
  {
    hide Tokens, PushAll;
    parts := [];
    var tok := 0;
    assert s[0..] == s;
    while tok < |s|
      invariant tok <= |s|
      invariant PushAll(parts, Tokens(s[tok..])) == PushAll([], Tokens(s))
    {
      while tok < |s| && s[tok] == SLASH
        invariant tok <= |s|
        invariant PushAll(parts, Tokens(s[tok..])) == PushAll([], Tokens(s))
      {
        TokensAfterSlash(s[tok..]);
        assert s[tok..][1..] == s[tok + 1..];
        tok := tok + 1;
      }
      if tok == |s| {
        break;
      }
      var rest := s[tok..];
      var k := Memchr(rest, SLASH);
      var t := rest[..k];
      FirstToken(parts, rest);
      if t == [DOT] {
      } else if t == [DOT, DOT] {
        if |parts| > 0 {
          parts := parts[..|parts| - 1];
        }
      } else {
        parts := parts + [t];
      }
      if k == |rest| {
        tok := |s|;
        NoTokens(parts);
        assert s[tok..] == [];
        break;
      }
      assert rest[k + 1..] == s[tok + k + 1..];
      tok := tok + k + 1;
    }
    assert s[|s|..] == [];
    NoTokens(parts);
  }

  /** vfs_normalize: the length of the normalized path left in buf, which holds
      it with its terminator. */
  method Normalize(buf: array<byte>, path: Path) returns (n: Option<nat>)
    modifies buf
    ensures n.Some? <==> Normalized(path).Some? && |Normalized(path).value| + 1 <= buf.Length
    ensures n.Some? ==> n.value < buf.Length && buf[..n.value] == Normalized(path).value && buf[n.value] == 0
  {
    hide Tokens, PushAll;
    if |path| == 0 || path[0] != SLASH {
      return None;
    }
    if |path| >= PATH_MAX {
      return None;
    }
    var parts := ResolveTokens(path[1..]);
    if |parts| == 0 {
      if buf.Length < 2 {
        return None;
      }
      buf[0] := SLASH;
      buf[1] := 0;
      return Some(1);
    }
    var pos := 0;
    JoinNone();
    for i := 0 to |parts|
      invariant pos <= buf.Length && (i > 0 ==> pos < buf.Length)
      invariant buf[..pos] == Join(parts[..i])
    {
      hide Join;
      JoinStep(parts, i);
      JoinPrefix(parts, i + 1);
      var plen := |parts[i]|;
      if pos + 1 + plen + 1 > buf.Length {
        return None;
      }
      ghost var before := buf[..];
      buf[pos] := SLASH;
      assert buf[..pos] == before[..pos];
      pos := pos + 1;
      ghost var mid := buf[..];
      assert mid[..pos] == Join(parts[..i]) + [SLASH];
      SpliceExtends(mid, Join(parts[..i]) + [SLASH], parts[i]);
      Blit(buf, pos, parts[i]);
      pos := pos + plen;
      assert buf[..pos] == buf[..][..pos];
    }
    assert parts[..|parts|] == parts;
    ghost var before := buf[..];
    buf[pos] := 0;
    assert buf[..pos] == before[..pos];
    return Some(pos);
  }

  lemma JoinStep(parts: seq<seq<byte>>, i: nat)
    requires i < |parts|
    ensures Join(parts[..i + 1]) == Join(parts[..i]) + [SLASH] + parts[i]
  {
    assert parts[..i + 1][..i] == parts[..i];
  }

  lemma {:induction false} JoinPrefix(parts: seq<seq<byte>>, i: nat)
    requires i <= |parts|
    ensures |Join(parts[..i])| <= |Join(parts)|
    decreases |parts| - i
  {
    if i == |parts| {
      assert parts[..i] == parts;
    } else {
      JoinStep(parts, i);
      JoinPrefix(parts, i + 1);
    }
  }

  // ------------------------------------------------------------------
  // Names that may be created
  // ------------------------------------------------------------------

  /** : / \ * ? " < > | */
  const ILLEGAL: seq<byte> := [0x3A, 0x2F, 0x5C, 0x2A, 0x3F, 0x22, 0x3C, 0x3E, 0x7C]

  predicate Allowed(c: byte) { c == SLASH || (c >= 0x20 && c !in ILLEGAL) }

  lemma AllowedIs(c: byte)
    ensures c != SLASH ==> (Allowed(c) <==> !(c < 0x20 || c in ILLEGAL))
  {
  }

  /** A character of a path is refused when it is a control character or one of
      : \ * ? " < > |. */
  lemma AllowedIff(c: byte)
    ensures Allowed(c) <==> c >= 32 && c !in {58, 92, 42, 63, 34, 60, 62, 124}
  {
  }

  predicate AllowedPath(p: Path) { forall i :: 0 <= i < |p| ==> Allowed(p[i]) }

  /** Between two separators of a normalized path, or after the last, there is a
      component. */
  lemma {:induction false} Between(p: Path, i: nat, j: nat)
    requires Normal(p) && i < j <= |p| && p[i] == SLASH && (j < |p| ==> p[j] == SLASH)
    requires forall k :: i < k < j ==> p[k] != SLASH
    ensures Component(p[i + 1..j])
    decreases |p|
  {
    var s := Stem(p);
    PathParts(p);
    if j == |p| {
      assert i == |s|;
      assert p[i + 1..j] == Base(p);
    } else {
      assert j <= |s| by {
        assert p[|s|] == SLASH && LastSlash(p) == |s|;
      }
      assert s[i] == SLASH;
      Between(s, i, j);
      assert p[i + 1..j] == s[i + 1..j];
    }
  }

  /** The scan has just read the first comp characters of a component. */
  ghost predicate Within(p: Path, i: nat, comp: nat, dots: bool)
  {
    && comp < i <= |p| && p[i - comp - 1] == SLASH
    && (forall k :: i - comp <= k < i ==> p[k] != SLASH)
    && (dots <==> forall k :: i - comp <= k < i ==> p[k] == DOT)
  }

  lemma WithinStep(p: Path, i: nat, comp: nat, dots: bool)
    requires Within(p, i, comp, dots) && i < |p|
    ensures p[i] != SLASH ==> Within(p, i + 1, comp + 1, dots && p[i] == DOT)
    ensures p[i] == SLASH ==> Within(p, i + 1, 0, true)
  {
  }

  /** Where a normalized path's component ends, the scan has no complaint. */
  lemma ComponentEnds(p: Path, i: nat, comp: nat, dots: bool)
    requires Normal(p) && Within(p, i, comp, dots) && (i < |p| ==> p[i] == SLASH)
    ensures comp > 0 && !(dots && comp <= 2)
  {
    hide Normal;
    Between(p, i - comp - 1, i);
    NotDots(p[i - comp..i]);
    assert forall k :: i - comp <= k < i ==> p[i - comp..i][k - (i - comp)] == p[k];
  }

  /** validate_path_components, one forward scan.  On a normalized path only the
      character rules can refuse. */
  method ValidateComponents(p: Path) returns (ok: bool)
    requires p == ROOT || (Normal(p) && |p| < PATH_MAX)
    ensures ok <==> p == ROOT || AllowedPath(p)
  {
    if p == ROOT {
      return true;
    }
    if |p| >= PATH_MAX {
      return false;
    }
    NormalNotRoot(p);
    assert Allowed(SLASH);
    hide Normal, Allowed;
    var comp, dots, i := 0, true, 1;
    assert Within(p, i, comp, dots);
    hide Within;
    while true
      invariant 1 <= i <= |p| && Within(p, i, comp, dots)
      invariant forall k :: 0 <= k < i ==> Allowed(p[k])
      decreases |p| - i
    {
      if i < |p| {
        WithinStep(p, i, comp, dots);
      }
      if i < |p| && p[i] != SLASH {
        AllowedIs(p[i]);
        if p[i] < 0x20 || p[i] in ILLEGAL {
          return false;
        }
        if p[i] != DOT {
          dots := false;
        }
        comp := comp + 1;
        i := i + 1;
      } else {
        ComponentEnds(p, i, comp, dots);
        if comp == 0 {
          if i == |p| {
            break;
          }
          return false;
        }
        if dots && comp <= 2 {
          return false;
        }
        if i == |p| {
          break;
        }
        comp, dots := 0, true;
        i := i + 1;
      }
    }
    return true;
  }

  lemma NotDots(c: seq<byte>)
    requires Component(c)
    ensures c != [] && ((forall k :: 0 <= k < |c| ==> c[k] == DOT) ==> |c| > 2)
  {
  }
}
