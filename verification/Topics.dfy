/** How src/filtering.c cuts topic filters and topic names into tokens, and which place of the
    trie a filter denotes. Insertion and search scan with an index, deletion recurses on the
    remaining suffix; all of them are proved against the functions of this module. */
module Topics {
  import opened Prelude

  /** A step down the trie: the `plus_children` pointer or an entry of `children`. */
  datatype Edge = Plus | Lit(name: string)

  /** A node, named by the way to it from `root` or from `sys`. */
  datatype Addr = Root | Sys | Child(parent: Addr, last: Edge)

  /** A subscriber list: the `childer_node` list of a node, or its `PoundNode` list. */
  datatype Path = Exact(at: Addr) | Pound(at: Addr)

  /** A topic name as `search` walks it. */
  datatype Topic = Topic(sys: bool, tokens: seq<string>)

  /** The first level of a key and what follows it. */
  datatype Head = Head(sys: bool, token: string, rest: string)

  function Level(s: string): (l: string)
    ensures |l| <= |s| && l == s[..|l|] && '/' !in l
    ensures |l| < |s| ==> s[|l|] == '/'
    ensures l == "" <==> s == "" || s[0] == '/'
  {
    if s == "" || s[0] == '/' then "" else [s[0]] + Level(s[1..])
  }

  /** The tokens of a suffix: its levels, an empty level written "/". A slash yields a token only
      when another slash or the end follows it. */
  function Tokens(s: string): seq<string>
    decreases |s|
  {
    if s == "" then []
    else if s[0] == '/' then
      (if |s| == 1 || s[1] == '/' then ["/"] else []) + Tokens(s[1..])
    else
      [Level(s)] + Tokens(s[|Level(s)|..])
  }

  /** The key "$" alone is excluded: the C code then reads past its terminator. */
  function HeadOf(key: string): Head
    requires key != "$"
  {
    if key != "" && key[0] == '/' then Head(false, "/", key[1..])
    else if key != "" && key[0] == '$' then
      var l := Level(key[1..]);
      if l == "" then Head(true, "/", key[2..]) else Head(true, l, key[1 + |l|..])
    else
      Head(false, Level(key), key[|Level(key)|..])
  }

  function EdgeOf(token: string): Edge
  {
    if token == "+" then Plus else Lit(token)
  }

  function Walk(a: Addr, tokens: seq<string>): Path
    decreases |tokens|
  {
    if tokens == [] then Exact(a)
    else if tokens[0] == "#" then Pound(a)
    else Walk(Child(a, EdgeOf(tokens[0])), tokens[1..])
  }

  function Base(sys: bool): Addr
  {
    if sys then Sys else Root
  }

  function FilterPath(key: string): Path
    requires key != "$"
  {
    if key != "" && key[0] == '#' then Pound(Root)
    else if key != "" && key[0] == '+' then Walk(Child(Root, Plus), Tokens(key[1..]))
    else
      var h := HeadOf(key);
      Walk(Child(Base(h.sys), Lit(h.token)), Tokens(h.rest))
  }

  function TopicOf(key: string): Topic
    requires key != "$"
  {
    var h := HeadOf(key);
    Topic(h.sys, [h.token] + Tokens(h.rest))
  }

  // ---------- insertion and search agree on names without wildcards ----------

  /** The node at the end of a wildcard-free walk. */
  function Plain(a: Addr, tokens: seq<string>): Addr
    decreases |tokens|
  {
    if tokens == [] then a else Plain(Child(a, Lit(tokens[0])), tokens[1..])
  }

  predicate WildcardFree(key: string)
  {
    '+' !in key && '#' !in key
  }

  lemma {:induction false} WalkOfPlainTokens(a: Addr, tokens: seq<string>)
    requires "+" !in tokens && "#" !in tokens
    ensures Walk(a, tokens) == Exact(Plain(a, tokens))
    decreases |tokens|
  {
    if tokens == [] {
    } else {
      WalkOfPlainTokens(Child(a, Lit(tokens[0])), tokens[1..]);
    }
  }

  lemma {:induction false} PlainTokens(s: string)
    requires WildcardFree(s)
    ensures "+" !in Tokens(s) && "#" !in Tokens(s)
    decreases |s|
  {
    if s == "" {
    } else {
      if s[0] == '/' {
        PlainTokens(s[1..]);
      } else {
        var l := Level(s);
        PlainTokens(s[|l|..]);
        assert "+"[0] == '+' && "#"[0] == '#';
        assert l != "+" && l != "#" by {
          assert l[0] == s[0];
        }
      }
    }
  }

  lemma InsertAndSearchTokensAgree(key: string)
    requires key != "$" && WildcardFree(key)
    ensures FilterPath(key) == Exact(Plain(Base(TopicOf(key).sys), TopicOf(key).tokens))
  {
    var h := HeadOf(key);
    PlainTokens(h.rest);
    WalkOfPlainTokens(Child(Base(h.sys), Lit(h.token)), Tokens(h.rest));
  }

  // ---------- the inverse: one filter for every subscriber list ----------

  /** A token that `Tokens` can produce. */
  predicate Token(t: string)
  {
    t == "/" || (t != "" && '/' !in t)
  }

  ghost predicate AllTokens(ts: seq<string>)
  {
    forall t :: t in ts ==> Token(t)
  }

  /** A tail that starts with a slash: a slash before every level, an empty level written "/". */
  function Tail(ts: seq<string>): string
  {
    if ts == [] then "" else "/" + (if ts[0] == "/" then "" else ts[0]) + Tail(ts[1..])
  }

  /** The same tokens after a slash that has already been consumed. */
  function Untokens(ts: seq<string>): string
  {
    if ts == [] || ts[0] == "/" then Tail(ts) else ts[0] + Tail(ts[1..])
  }

  lemma {:induction false} LevelOfPrefix(l: string, s: string)
    requires '/' !in l && (s == "" || s[0] == '/')
    ensures Level(l + s) == l
  {
    if l == "" {
      assert l + s == s;
    } else {
      LevelOfPrefix(l[1..], s);
      var all := l + s;
      assert all[0] == l[0] && l[0] in l && all[1..] == l[1..] + s;
      assert l == [l[0]] + l[1..];
    }
  }

  lemma TokensOfLevelAndTail(l: string, s: string)
    requires l != "" && '/' !in l && (s == "" || s[0] == '/')
    ensures Tokens(l + s) == [l] + Tokens(s)
  {
    LevelOfPrefix(l, s);
    assert (l + s)[|l|..] == s;
    assert (l + s)[0] == l[0];
    assert l[0] != '/';
  }

  lemma {:induction false} TailStartsWithSlash(ts: seq<string>)
    ensures Tail(ts) == "" || Tail(ts)[0] == '/'
  {
  }

  lemma TokensOfSlash(s: string)
    ensures Tokens("/" + s) == if s == "" || s[0] == '/' then ["/"] + Tokens(s) else Tokens(s)
  {
    assert ("/" + s)[1..] == s;
  }

  lemma {:induction false} TokensOfTail(ts: seq<string>)
    requires AllTokens(ts)
    ensures Tokens(Tail(ts)) == ts
  {
    if ts == [] {
    } else {
      var rest := Tail(ts[1..]);
      assert Token(ts[0]) && ts == [ts[0]] + ts[1..];
      TokensOfTail(ts[1..]);
      TailStartsWithSlash(ts[1..]);
      if ts[0] == "/" {
        assert Tail(ts) == "/" + rest;
        TokensOfSlash(rest);
      } else {
        assert Tail(ts) == "/" + (ts[0] + rest);
        TokensOfSlash(ts[0] + rest);
        TokensOfLevelAndTail(ts[0], rest);
      }
    }
  }

  lemma TokensOfUntokens(ts: seq<string>)
    requires AllTokens(ts)
    ensures Tokens(Untokens(ts)) == ts
  {
    if ts == [] || ts[0] == "/" {
      TokensOfTail(ts);
    } else {
      assert AllTokens(ts[1..]);
      assert Token(ts[0]);
      TokensOfTail(ts[1..]);
      TokensOfLevelAndTail(ts[0], Tail(ts[1..]));
      assert ts == [ts[0]] + ts[1..];
    }
  }

  lemma {:induction false} TokensAreTokens(s: string)
    ensures AllTokens(Tokens(s))
    decreases |s|
  {
    if s == "" {
    } else {
      if s[0] == '/' {
        TokensAreTokens(s[1..]);
      } else {
        TokensAreTokens(s[|Level(s)|..]);
      }
    }
  }

  lemma TailOfFirst(t: string, ts: seq<string>)
    ensures Tail([t] + ts) == "/" + (if t == "/" then "" else t) + Tail(ts)
  {
    assert ([t] + ts)[1..] == ts;
  }

  lemma FirstLevelSplits(s: string)
    requires s != "" && s[0] != '/'
    ensures var l := Level(s); s == l + s[|l|..] && l != "" && l[0] == s[0] && Tokens(s) == [l] + Tokens(s[|l|..])
  {
  }

  lemma {:induction false} TailOfTokens(s: string)
    requires s == "" || s[0] == '/'
    ensures Tail(Tokens(s)) == s
    decreases |s|
  {
    if s == "" {
    } else {
      var s' := s[1..];
      assert s == "/" + s';
      TokensOfSlash(s');
      if s' == "" || s'[0] == '/' {
        TailOfTokens(s');
        TailOfFirst("/", Tokens(s'));
      } else {
        FirstLevelSplits(s');
        var l := Level(s');
        TailOfTokens(s'[|l|..]);
        TailOfFirst(l, Tokens(s'[|l|..]));
      }
    }
  }

  /** The suffix loses an empty first level exactly when it is a slash followed by a real level. */
  predicate DropsALevel(s: string)
  {
    |s| > 1 && s[0] == '/' && s[1] != '/'
  }

  lemma UntokensOfTokens(s: string)
    requires !DropsALevel(s)
    ensures Untokens(Tokens(s)) == s
  {
    if s == "" {
    } else if s[0] == '/' {
      TailOfTokens(s);
      assert Tokens(s)[0] == "/";
    } else {
      var l := Level(s);
      var rest := s[|l|..];
      TailOfTokens(rest);
      assert Tokens(s)[1..] == Tokens(rest);
      assert l[0] != '/';
      assert s == l + rest;
    }
  }

  lemma UntokensNeverDrops(ts: seq<string>)
    requires AllTokens(ts)
    ensures !DropsALevel(Untokens(ts))
  {
    if ts != [] {
      var t, rest := ts[0], Tail(ts[1..]);
      assert Token(t) && ts == [t] + ts[1..];
      TailStartsWithSlash(ts[1..]);
      TailOfFirst(t, ts[1..]);
      var s := Untokens(ts);
      if t == "/" {
        assert s == "/" + rest;
      } else {
        assert s == t + rest && t[0] in t;
        assert s[0] == t[0];
      }
    }
  }

  // ---------- paths and canonical filters ----------

  function EdgeToken(e: Edge): string
  {
    if e.Plus? then "+" else e.name
  }

  /** The node of the first level. */
  function First(a: Addr): (f: Addr)
    requires a.Child?
    ensures f.Child? && !f.parent.Child?
  {
    if a.parent.Child? then First(a.parent) else a
  }

  /** The tokens below the first level. */
  function Deeper(a: Addr): seq<string>
    requires a.Child?
  {
    if a.parent.Child? then Deeper(a.parent) + [EdgeToken(a.last)] else []
  }

  /** The tokens of a path below its first level, with the final "#". */
  function PathTokens(p: Path): seq<string>
    requires p.at.Child?
  {
    Deeper(p.at) + (if p.Pound? then ["#"] else [])
  }

  predicate ValidEdge(e: Edge)
  {
    e.Lit? ==> Token(e.name) && e.name != "+" && e.name != "#"
  }

  predicate ValidDeeper(a: Addr)
    requires a.Child?
  {
    a.parent.Child? ==> ValidEdge(a.last) && ValidDeeper(a.parent)
  }

  predicate ValidFirst(p: Path)
    requires p.at.Child?
  {
    var f := First(p.at);
    match f.last
    case Plus => f.parent == Root
    case Lit(l) =>
      if f.parent == Sys then Token(l)
      else if l == "" then p == Exact(Child(Root, Lit("")))
      else Token(l) && l[0] != '#' && l[0] != '+' && l[0] != '$'
  }

  /** The lists that some filter denotes. */
  predicate ValidPath(p: Path)
  {
    if p.at.Child? then ValidFirst(p) && ValidDeeper(p.at) else p == Pound(Root)
  }

  /** The first level as the filter spells it. */
  function HeadString(sys: bool, token: string): string
  {
    (if sys then "$" else "") + token
  }

  /** The filter that denotes a list. */
  function FilterOf(p: Path): string
  {
    if !p.at.Child? then "#"
    else
      var f, ts := First(p.at), PathTokens(p);
      HeadString(f.parent == Sys, EdgeToken(f.last)) + (if f.last == Lit("/") then Untokens(ts) else Tail(ts))
  }

  /** "#" stands only at the end. */
  predicate PoundLast(ts: seq<string>)
  {
    forall i :: 0 <= i < |ts| - 1 ==> ts[i] != "#"
  }

  /** A wildcard in front stands alone in its level. */
  predicate LeadingWildcardAlone(key: string)
  {
    key != "" ==> (key[0] == '#' ==> key == "#") && (key[0] == '+' ==> |key| == 1 || key[1] == '/')
  }

  /** The filters that MQTT allows, except that a leading slash may not be followed by an empty
      level and a further level ("//a"), which the tokeniser does not tell from "/a". */
  predicate Canonical(key: string)
  {
    && key != "$" && LeadingWildcardAlone(key)
    && (key != "" ==>
      && (key[0] == '/' ==> !DropsALevel(key[1..]))
      && (key[0] == '$' && key[1] == '/' ==> !DropsALevel(key[2..]))
      && (key[0] != '#' ==> PoundLast(Tokens(HeadOf(key).rest))))
  }

  lemma {:induction false} WalkIsValid(a: Addr, ts: seq<string>)
    requires AllTokens(ts) && a.Child? && ValidDeeper(a)
    ensures var p := Walk(a, ts); p.at.Child? && First(p.at) == First(a) && ValidDeeper(p.at)
    ensures ts == [] ==> Walk(a, ts) == Exact(a)
    decreases |ts|
  {
    if ts != [] && ts[0] != "#" {
      assert Token(ts[0]);
      assert forall t :: t in ts[1..] ==> t in ts;
      WalkIsValid(Child(a, EdgeOf(ts[0])), ts[1..]);
    }
  }

  lemma FilterPathIsValid(key: string)
    requires key != "$"
    ensures ValidPath(FilterPath(key))
  {
    if key == "" {
      assert HeadOf(key) == Head(false, "", "");
    } else if key[0] == '#' {
    } else if key[0] == '+' {
      TokensAreTokens(key[1..]);
      WalkIsValid(Child(Root, Plus), Tokens(key[1..]));
    } else {
      var h := HeadOf(key);
      TokensAreTokens(h.rest);
      WalkIsValid(Child(Base(h.sys), Lit(h.token)), Tokens(h.rest));
      if key[0] != '/' && key[0] != '$' {
        assert h.token[0] == key[0];
      }
    }
  }

  /** Walking a token list with "#" only at its end gives the list back. */
  lemma {:induction false} PathTokensOfWalk(a: Addr, ts: seq<string>)
    requires a.Child? && PoundLast(ts)
    ensures var p := Walk(a, ts); p.at.Child? && PathTokens(p) == Deeper(a) + ts
    decreases |ts|
  {
    if ts == [] {
    } else {
      if ts[0] == "#" {
        assert ts == ["#"];
      } else {
        PathTokensOfWalk(Child(a, EdgeOf(ts[0])), ts[1..]);
        assert Deeper(a) + [ts[0]] + ts[1..] == Deeper(a) + ts;
      }
    }
  }

  lemma {:induction false} WalkConcat(a: Addr, ts: seq<string>, b: Addr, us: seq<string>)
    requires Walk(a, ts) == Exact(b)
    ensures Walk(a, ts + us) == Walk(b, us)
    decreases |ts|
  {
    if ts == [] {
      assert ts + us == us;
    } else {
      assert (ts + us)[1..] == ts[1..] + us;
      WalkConcat(Child(a, EdgeOf(ts[0])), ts[1..], b, us);
    }
  }

  lemma {:induction false} WalkDown(a: Addr)
    requires a.Child? && ValidDeeper(a)
    ensures Walk(First(a), Deeper(a)) == Exact(a)
  {
    if a.parent.Child? {
      WalkDown(a.parent);
      WalkConcat(First(a), Deeper(a.parent), a.parent, [EdgeToken(a.last)]);
    }
  }

  lemma WalkBack(p: Path)
    requires p.at.Child? && ValidDeeper(p.at)
    ensures Walk(First(p.at), PathTokens(p)) == p
  {
    WalkDown(p.at);
    WalkConcat(First(p.at), Deeper(p.at), p.at, if p.Pound? then ["#"] else []);
  }

  lemma {:induction false} DeeperAreTokens(a: Addr)
    requires a.Child? && ValidDeeper(a)
    ensures AllTokens(Deeper(a)) && "#" !in Deeper(a)
  {
    if a.parent.Child? {
      DeeperAreTokens(a.parent);
    }
  }

  lemma PathTokensAreTokens(p: Path)
    requires ValidPath(p) && p.at.Child?
    ensures AllTokens(PathTokens(p)) && PoundLast(PathTokens(p))
  {
    DeeperAreTokens(p.at);
  }

  // ---------- how `HeadOf` reads the shapes of a filter ----------

  lemma HeadOfPlainLevel(l: string, s: string)
    requires l != "" && '/' !in l && l[0] != '$' && (s == "" || s[0] == '/')
    ensures l + s != "$" && HeadOf(l + s) == Head(false, l, s)
  {
    LevelOfPrefix(l, s);
    assert (l + s)[0] == l[0] && (l + s)[|l|..] == s;
    assert l[0] != '/';
  }

  lemma HeadOfSysLevel(l: string, s: string)
    requires l != "" && '/' !in l && (s == "" || s[0] == '/')
    ensures HeadOf("$" + l + s) == Head(true, l, s)
  {
    LevelOfPrefix(l, s);
    var key := "$" + l + s;
    assert key[1..] == l + s && key[1 + |l|..] == s;
  }

  lemma HeadOfSlash(s: string)
    ensures "/" + s != "$" && HeadOf("/" + s) == Head(false, "/", s)
  {
    assert ("/" + s)[0] == '/' && ("/" + s)[1..] == s;
  }

  lemma HeadOfSysSlash(s: string)
    ensures HeadOf("$/" + s) == Head(true, "/", s)
  {
    assert ("$/" + s)[2..] == s;
    assert ("$/" + s)[1..] == "/" + s;
  }

  /** A key is its first level followed by the rest. */
  lemma KeyIsHeadAndRest(key: string)
    requires key != "$"
    ensures var h := HeadOf(key); key == HeadString(h.sys, h.token) + h.rest
  {
    if key != "" && key[0] == '/' {
      assert key == "/" + key[1..];
    } else if key != "" && key[0] == '$' {
      var l := Level(key[1..]);
      if l == "" {
        assert key == "$" + "/" + key[2..];
      } else {
        assert key[1..1 + |l|] == l;
        assert key == "$" + l + key[1 + |l|..];
      }
    } else {
      assert key == "" + Level(key) + key[|Level(key)|..];
    }
  }

  /** How the first level and the tail of `FilterOf(p)` are read back. */
  lemma HeadOfFilter(p: Path)
    requires ValidPath(p) && p.at.Child?
    ensures FilterOf(p) != "$"
    ensures var f := First(p.at);
      HeadOf(FilterOf(p)) == Head(f.parent == Sys, EdgeToken(f.last),
        if f.last == Lit("/") then Untokens(PathTokens(p)) else Tail(PathTokens(p)))
  {
    hide Tokens, Level;
    var f, ts := First(p.at), PathTokens(p);
    PathTokensAreTokens(p);
    TokensOfTail(ts);
    var t := EdgeToken(f.last);
    if f.parent == Sys {
      if t == "/" {
        HeadOfSysSlash(Untokens(ts));
        assert HeadString(true, "/") == "$/";
      } else {
        HeadOfSysLevel(t, Tail(ts));
        assert FilterOf(p)[1] == t[0];
      }
    } else if t == "/" {
      HeadOfSlash(Untokens(ts));
      assert HeadString(false, "/") == "/";
    } else if t == "" {
      assert ts == [];
    } else {
      HeadOfPlainLevel(t, Tail(ts));
      assert HeadString(false, t) == t;
    }
  }

  lemma FirstOfFilter(p: Path)
    requires ValidPath(p) && p.at.Child?
    ensures var f := FilterOf(p);
      && (First(p.at).last.Plus? <==> f != "" && f[0] == '+')
      && (f != "" ==> f[0] != '#')
      && (First(p.at).last.Plus? ==> f[1..] == Tail(PathTokens(p)))
  {
    var t := EdgeToken(First(p.at).last);
    if First(p.at).parent == Sys {
      assert FilterOf(p)[0] == '$';
    } else if t == "" {
      assert PathTokens(p) == [];
    } else {
      assert FilterOf(p)[0] == t[0];
    }
  }

  lemma FilterPathOfFilterOf(p: Path)
    requires ValidPath(p)
    ensures FilterOf(p) != "$" && FilterPath(FilterOf(p)) == p
  {
    hide Untokens, Tokens, Walk, PathTokens;
    if p.at.Child? {
      HeadOfFilter(p);
      FirstOfFilter(p);
      PathTokensAreTokens(p);
      TokensOfTail(PathTokens(p));
      TokensOfUntokens(PathTokens(p));
      WalkBack(p);
    }
  }

  lemma SlashFiltersDoNotDrop(p: Path)
    requires ValidPath(p) && p.at.Child?
    ensures var f := FilterOf(p);
      && (f != "" && f[0] == '/' ==> !DropsALevel(f[1..]))
      && (|f| > 1 && f[0] == '$' && f[1] == '/' ==> !DropsALevel(f[2..]))
  {
    var ts := PathTokens(p);
    PathTokensAreTokens(p);
    UntokensNeverDrops(ts);
    FirstOfFilter(p);
    var f := First(p.at);
    if f.last == Lit("/") {
      assert FilterOf(p)[(if f.parent == Sys then 2 else 1)..] == Untokens(ts);
    } else if f.last.Lit? && f.last.name != "" {
      assert f.last.name[0] != '/';
      if f.parent == Sys {
        assert FilterOf(p)[1] == f.last.name[0];
      } else {
        assert FilterOf(p)[0] == f.last.name[0];
      }
    }
  }

  lemma FilterOfIsCanonical(p: Path)
    requires ValidPath(p)
    ensures Canonical(FilterOf(p))
  {
    if p.at.Child? {
      HeadOfFilter(p);
      FirstOfFilter(p);
      PathTokensAreTokens(p);
      TokensOfTail(PathTokens(p));
      TokensOfUntokens(PathTokens(p));
      SlashFiltersDoNotDrop(p);
    }
  }

  /** The edge below `root` or `sys`. */
  function FirstEdge(key: string): Edge
    requires key != "$"
  {
    if key != "" && key[0] == '+' then Plus else Lit(HeadOf(key).token)
  }

  lemma FilterPathByHead(key: string)
    requires LeadingWildcardAlone(key) && key != "$" && (key == "" || key[0] != '#')
    ensures FilterPath(key) == Walk(Child(Base(HeadOf(key).sys), FirstEdge(key)), Tokens(HeadOf(key).rest))
    ensures EdgeToken(FirstEdge(key)) == HeadOf(key).token
    ensures FirstEdge(key).Plus? ==> HeadOf(key).rest == key[1..]
  {
    if key != "" && key[0] == '+' {
      HeadOfPlainLevel("+", key[1..]);
      assert key == "+" + key[1..];
    }
  }

  lemma PathOfCanonical(key: string)
    requires Canonical(key) && (key == "" || key[0] != '#')
    ensures var p := FilterPath(key);
      && p.at.Child? && First(p.at) == Child(Base(HeadOf(key).sys), FirstEdge(key))
      && PathTokens(p) == Tokens(HeadOf(key).rest)
  {
    FilterPathByHead(key);
    var a := Child(Base(HeadOf(key).sys), FirstEdge(key));
    var ts := Tokens(HeadOf(key).rest);
    assert PoundLast(ts) by {
      if key == "" {
        assert HeadOf(key) == Head(false, "", "");
      }
    }
    PathTokensOfWalk(a, ts);
    TokensAreTokens(HeadOf(key).rest);
    WalkIsValid(a, ts);
  }

  lemma RestOfCanonical(key: string)
    requires Canonical(key) && (key == "" || key[0] != '#')
    ensures var rest := HeadOf(key).rest;
      rest == if FirstEdge(key) == Lit("/") then Untokens(Tokens(rest)) else Tail(Tokens(rest))
  {
    FilterPathByHead(key);
    var rest := HeadOf(key).rest;
    if FirstEdge(key) == Lit("/") {
      UntokensOfTokens(rest);
    } else {
      TailOfTokens(rest);
    }
  }

  lemma FilterOfFilterPath(key: string)
    requires Canonical(key)
    ensures FilterOf(FilterPath(key)) == key
  {
    if key == "" || key[0] != '#' {
      FilterPathByHead(key);
      PathOfCanonical(key);
      KeyIsHeadAndRest(key);
      RestOfCanonical(key);
    }
  }

  /** `FilterPath` loses nothing exactly on the canonical filters. */
  lemma RoundTripIffCanonical(key: string)
    requires key != "$"
    ensures FilterOf(FilterPath(key)) == key <==> Canonical(key)
  {
    FilterPathIsValid(key);
    FilterOfIsCanonical(FilterPath(key));
    if Canonical(key) {
      FilterOfFilterPath(key);
    }
  }

  lemma CanonicalFiltersDoNotCollide(f: string, g: string)
    requires Canonical(f) && Canonical(g)
    requires FilterPath(f) == FilterPath(g)
    ensures f == g
  {
    FilterOfFilterPath(f);
    FilterOfFilterPath(g);
  }

  /** "//a" and "/a" share one list. */
  lemma DroppedLevelCollides()
    ensures FilterPath("//a") == FilterPath("/a") && !Canonical("//a")
  {
    assert "//a"[1..] == "/a" && "/a"[1..] == "a" && "a"[1..] == "";
    assert Level("a") == "a";
    assert Tokens("/a") == Tokens("a");
  }
}
