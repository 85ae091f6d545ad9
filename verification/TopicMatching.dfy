/** The matching rule of section 4.7 of MQTT 3.1.1, defined on levels and independently of the
    tokeniser and the trie, and where exactly the lists that `search` selects agree with it. */
module TopicMatching {
  import opened Prelude
  import opened Topics
  import opened SubscriberLists
  import opened TopicStore
  import opened Frontier

  /** A topic name or filter split at its slashes. */
  function Levels(s: string): (ls: seq<string>)
    ensures ls != []
    decreases |s|
  {
    var l := Level(s);
    if |l| == |s| then [l] else [l] + Levels(s[|l| + 1..])
  }

  /** Sections 4.7.1.2 and 4.7.1.3: "#" stands for any number of levels, "+" for exactly one. */
  predicate LevelsMatch(filter: seq<string>, name: seq<string>)
  {
    if filter == [] then name == []
    else if filter[0] == "#" then true
    else
      && name != []
      && (filter[0] == "+" || filter[0] == name[0])
      && LevelsMatch(filter[1..], name[1..])
  }

  /** With section 4.7.2: a leading wildcard does not match names that start with "$". */
  predicate Matches(filter: string, name: string)
  {
    && LevelsMatch(Levels(filter), Levels(name))
    && !(name != "" && name[0] == '$' && filter != "" && filter[0] in {'+', '#'})
  }

  /** An empty level right after the first slash: the tokeniser drops it. */
  predicate SecondLevelEmpty(key: string)
    requires key != "$"
  {
    key != "" && HeadOf(key).token == "/" && (HeadOf(key).rest == "" || HeadOf(key).rest[0] == '/')
  }

  // ---------- tokens are levels ----------

  function Written(ls: seq<string>): seq<string>
  {
    seq(|ls|, i requires 0 <= i < |ls| => if ls[i] == "" then "/" else ls[i])
  }

  lemma WrittenCons(l: string, ls: seq<string>)
    ensures Written([l] + ls) == [if l == "" then "/" else l] + Written(ls)
  {
  }

  lemma {:induction false} TokensAreLevels(s: string)
    requires s != "" && s[0] != '/'
    ensures Tokens(s) == Written(Levels(s))
    decreases |s|, 0
  {
    var l := Level(s);
    if |l| < |s| {
      var rest := s[|l| + 1..];
      assert s[|l|..] == "/" + rest;
      TokensAfterSlash(rest);
      WrittenCons(l, Levels(rest));
    } else {
      assert s[|l|..] == "";
    }
  }

  lemma {:induction false} TokensAfterSlash(rest: string)
    ensures Tokens("/" + rest) == Written(Levels(rest))
    decreases |rest|, 1
  {
    var s := "/" + rest;
    assert s[1..] == rest;
    if rest == "" {
      assert Tokens(s) == ["/"] + Tokens(rest);
    } else if rest[0] == '/' {
      TokensAfterSlash(rest[1..]);
      assert rest == "/" + rest[1..];
      WrittenCons("", Levels(rest[1..]));
    } else {
      TokensAreLevels(rest);
      assert Tokens(s) == [] + Tokens(rest);
    }
  }

  /** The first level as a level. */
  function HeadLevel(h: Head): string
  {
    if h.token == "/" then (if h.sys then "$" else "") else HeadString(h.sys, h.token)
  }

  /** The levels the tokeniser keeps. */
  function KeptLevels(key: string): (ls: seq<string>)
    requires key != "$"
    ensures ls != []
  {
    var ls := Levels(key);
    if SecondLevelEmpty(key) && |ls| > 1 then [ls[0]] + ls[2..] else ls
  }

  function LowerLevels(key: string): seq<string>
    requires key != "$"
  {
    KeptLevels(key)[1..]
  }

  lemma LevelsOfSplit(l: string, rest: string)
    requires '/' !in l
    ensures Levels(l) == [l] && Levels(l + "/" + rest) == [l] + Levels(rest)
  {
    LevelOfPrefix(l, "");
    assert l + "" == l;
    var s := l + "/" + rest;
    assert s == l + ("/" + rest);
    LevelOfPrefix(l, "/" + rest);
    assert s[|l| + 1..] == rest;
  }

  lemma TailLevels(l: string, rest: string)
    requires '/' !in l && (rest == "" || rest[0] == '/')
    ensures Levels(l + rest)[0] == l && Tokens(rest) == Written(Levels(l + rest)[1..])
  {
    if rest == "" {
      assert l + rest == l;
      LevelsOfSplit(l, "");
    } else {
      assert rest == "/" + rest[1..] && l + rest == l + "/" + rest[1..];
      LevelsOfSplit(l, rest[1..]);
      TokensAfterSlash(rest[1..]);
    }
  }

  lemma SlashLevels(l: string, rest: string)
    requires '/' !in l && rest != "" && rest[0] != '/'
    ensures Levels(l + "/" + rest)[0] == l && Tokens(rest) == Written(Levels(l + "/" + rest)[1..])
  {
    LevelsOfSplit(l, rest);
    TokensAreLevels(rest);
  }

  lemma DroppedLevels(l: string, rest: string)
    requires '/' !in l && (rest == "" || rest[0] == '/')
    ensures var ls := Levels(l + "/" + rest); |ls| > 1 && ls[0] == l && ls[1] == "" && Tokens(rest) == Written(ls[2..])
  {
    LevelsOfSplit(l, rest);
    TailLevels("", rest);
    assert "" + rest == rest;
    assert Levels(l + "/" + rest)[2..] == Levels(rest)[1..];
  }

  lemma LevelsByHead(key: string)
    requires key != "$"
    ensures KeptLevels(key)[0] == HeadLevel(HeadOf(key))
    ensures Tokens(HeadOf(key).rest) == Written(LowerLevels(key))
  {
    var h := HeadOf(key);
    KeyIsHeadAndRest(key);
    if h.token == "/" {
      var l := if h.sys then "$" else "";
      assert key == l + "/" + h.rest;
      if SecondLevelEmpty(key) {
        DroppedLevels(l, h.rest);
        assert ([l] + Levels(key)[2..])[1..] == Levels(key)[2..];
      } else {
        SlashLevels(l, h.rest);
      }
    } else {
      TailLevels(HeadString(h.sys, h.token), h.rest);
    }
  }

  lemma KeptLevelsAreSlashFree(key: string)
    requires key != "$"
    ensures SlashFree(KeptLevels(key))
  {
    LevelsAreSlashFree(key);
  }

  // ---------- walking a filter is matching its levels ----------

  /** The selection rule without the exception for final nodes. */
  predicate OpenSelects(p: Path, t: Topic)
  {
    match p
    case Exact(a) => Reached(a, t, |t.tokens|)
    case Pound(a) => if a.Child? then Reached(a, t, Depth(a)) else a == Root && !t.sys
  }

  /** The exception: a "#" list one level above is passed over when the final node has a list of its own. */
  predicate Hidden(store: Store, p: Path, t: Topic)
  {
    p.Pound? && p.at.Child? && Depth(p.at) == |t.tokens| && Exact(p.at) in store
  }

  lemma SelectsUnlessHidden(store: Store, p: Path, t: Topic)
    ensures Selects(store, p, t) <==> OpenSelects(p, t) && !Hidden(store, p, t)
  {
  }

  lemma {:induction false} ReachedPrefix(x: Addr, a: Addr, t: Topic, m: nat)
    requires Extends(x, a) && a.Child? && Reached(x, t, m)
    ensures Reached(a, t, Depth(a))
    decreases x
  {
    if x == a {
      ReachedDepth(a, t, m);
    } else {
      if m == 1 {
        BaseHasNothingAbove(x.parent, a);
      } else {
        ReachedPrefix(x.parent, a, t, m - 1);
      }
    }
  }

  lemma BaseHasNothingAbove(b: Addr, a: Addr)
    requires Extends(b, a) && !b.Child?
    ensures a == b
  {
  }

  lemma NotReached(a: Addr, ft: seq<string>, t: Topic)
    requires a.Child? && !Reached(a, t, Depth(a))
    ensures !OpenSelects(Walk(a, ft), t)
  {
    var p := Walk(a, ft);
    WalkExtends(a, ft);
    assert p.at.Child?;
    var m := if p.Exact? then |t.tokens| else Depth(p.at);
    if Reached(p.at, t, m) {
      ReachedPrefix(p.at, a, t, m);
    }
  }

  lemma {:induction false} WalkMatches(a: Addr, ft: seq<string>, t: Topic, n: nat)
    requires Reached(a, t, n)
    ensures OpenSelects(Walk(a, ft), t) <==> LevelsMatch(ft, t.tokens[n..])
    decreases |ft|
  {
    ReachedDepth(a, t, n);
    if ft == [] {
      if Reached(a, t, |t.tokens|) {
        ReachedDepth(a, t, |t.tokens|);
      }
    } else if ft[0] != "#" {
      var c := Child(a, EdgeOf(ft[0]));
      assert Depth(c) == n + 1;
      if Reached(c, t, n + 1) {
        WalkMatches(c, ft[1..], t, n + 1);
        assert t.tokens[n..][1..] == t.tokens[n + 1..];
      } else {
        NotReached(c, ft[1..], t);
      }
    }
  }

  ghost predicate SlashFree(ls: seq<string>)
  {
    forall i :: 0 <= i < |ls| ==> '/' !in ls[i]
  }

  lemma {:induction false} LevelsAreSlashFree(s: string)
    ensures SlashFree(Levels(s))
    decreases |s|
  {
    var l := Level(s);
    if |l| < |s| {
      LevelsAreSlashFree(s[|l| + 1..]);
    }
  }

  lemma {:induction false} MatchingOfWritten(fl: seq<string>, tl: seq<string>)
    requires SlashFree(fl) && SlashFree(tl)
    ensures LevelsMatch(Written(fl), Written(tl)) <==> LevelsMatch(fl, tl)
    decreases |fl|
  {
    if fl == [] {
    } else {
      assert Written(fl)[1..] == Written(fl[1..]);
      if tl != [] {
        assert Written(tl)[1..] == Written(tl[1..]);
        assert "/"[0] == '/';
        assert fl[0] != "/" && tl[0] != "/";
        MatchingOfWritten(fl[1..], tl[1..]);
      }
    }
  }

  // ---------- the first level ----------

  lemma TokenOfHead(key: string)
    requires key != "$" && key != ""
    ensures var h := HeadOf(key);
      && (h.token == "/" || (h.token != "" && '/' !in h.token))
      && (!h.sys && h.token != "/" ==> h.token[0] == key[0] && key[0] != '$')
      && (h.sys <==> key[0] == '$')
  {
  }

  /** The first level determines the first token. */
  lemma HeadFromLevel(key: string)
    requires key != "$" && key != ""
    ensures var h, l := HeadOf(key), HeadLevel(HeadOf(key));
      && h.sys == (l != "" && l[0] == '$')
      && var rest := if h.sys then l[1..] else l; h.token == if rest == "" then "/" else rest
  {
    TokenOfHead(key);
    var h := HeadOf(key);
    if h.token != "/" {
      assert HeadString(h.sys, h.token) == if h.sys then "$" + h.token else h.token;
      assert h.sys ==> ("$" + h.token)[0] == '$' && ("$" + h.token)[1..] == h.token;
      assert "" + h.token == h.token;
    }
  }

  lemma HeadLevelsDiffer(f: string, t: string)
    requires f != "$" && f != "" && t != "$" && t != ""
    ensures HeadLevel(HeadOf(f)) == HeadLevel(HeadOf(t)) <==>
      HeadOf(f).sys == HeadOf(t).sys && HeadOf(f).token == HeadOf(t).token
  {
    HeadFromLevel(f);
    HeadFromLevel(t);
  }

  lemma FirstLevelMatches(f: string, t: string)
    requires LeadingWildcardAlone(f) && f != "$" && f != "" && f[0] != '#' && t != "$" && t != ""
    ensures var hf := HeadOf(f);
      Reached(Child(Base(hf.sys), FirstEdge(f)), TopicOf(t), 1) <==>
        HeadLevel(hf) == "+" || HeadLevel(hf) == HeadLevel(HeadOf(t))
  {
    HeadLevelsDiffer(f, t);
    FilterPathByHead(f);
    TokenOfHead(f);
    var hf := HeadOf(f);
    if hf.sys {
      assert hf.token != "/" ==> HeadLevel(hf)[0] == '$';
    }
    assert HeadString(false, hf.token) == hf.token;
  }

  lemma SelectionBelowFirst(f: string, t: string)
    requires LeadingWildcardAlone(f) && f != "" && f[0] != '#' && f != "$" && t != "" && t != "$"
    ensures OpenSelects(FilterPath(f), TopicOf(t)) <==> LevelsMatch(KeptLevels(f), KeptLevels(t))
  {
    var topic, hf := TopicOf(t), HeadOf(f);
    var a, ft := Child(Base(hf.sys), FirstEdge(f)), Tokens(hf.rest);
    FilterPathByHead(f);
    FirstLevelMatches(f, t);
    LevelsByHead(f);
    LevelsByHead(t);
    assert Depth(a) == 1;
    assert topic.tokens[1..] == Tokens(HeadOf(t).rest);
    KeptLevelsAreSlashFree(f);
    KeptLevelsAreSlashFree(t);
    MatchingOfWritten(LowerLevels(f), LowerLevels(t));
    TokenOfHead(f);
    assert HeadLevel(hf) != "#" by {
      assert hf.sys && hf.token != "/" ==> HeadLevel(hf)[0] == '$';
      assert HeadString(false, hf.token) == hf.token;
    }
    if Reached(a, topic, 1) {
      WalkMatches(a, ft, topic, 1);
    } else {
      NotReached(a, ft, topic);
    }
  }

  /** For every name and every filter whose leading wildcard stands alone: the lists that `search`
      selects are those the standard's rule selects on the levels the tokeniser keeps, save for a
      "#" at the root and "$" names, and for the final-node exception. */
  lemma SelectionIsLevelMatching(store: Store, f: string, t: string)
    requires LeadingWildcardAlone(f) && f != "" && f != "$" && t != "" && t != "$"
    ensures var p, topic := FilterPath(f), TopicOf(t);
      Selects(store, p, topic) <==>
        LevelsMatch(KeptLevels(f), KeptLevels(t)) && !(t[0] == '$' && f[0] == '#') && !Hidden(store, p, topic)
  {
    SelectsUnlessHidden(store, FilterPath(f), TopicOf(t));
    TokenOfHead(t);
    if f[0] == '#' {
      LevelsOfSplit("#", "");
    } else {
      SelectionBelowFirst(f, t);
    }
  }

  // ---------- where the two rules part ----------

  lemma LevelsOfEmptySecond(key: string)
    requires key != "$" && SecondLevelEmpty(key)
    ensures var ls := Levels(key);
      && |ls| > 1 && ls[0] == (if key[0] == '$' then "$" else "") && ls[1] == ""
      && KeptLevels(key) == [ls[0]] + ls[2..]
  {
    KeyIsHeadAndRest(key);
    var h := HeadOf(key);
    DroppedLevels(if h.sys then "$" else "", h.rest);
  }

  lemma LevelsOfFullSecond(key: string)
    requires key != "" && key != "$" && !SecondLevelEmpty(key)
    ensures var ls := Levels(key);
      KeptLevels(key) == ls && (ls[0] == "" || ls[0] == "$" ==> |ls| > 1 && ls[1] != "")
  {
    LevelsByHead(key);
    KeyIsHeadAndRest(key);
    TokenOfHead(key);
    HeadFromLevel(key);
    var h := HeadOf(key);
    if h.token == "/" {
      var l := if h.sys then "$" else "";
      assert key == l + "/" + h.rest;
      LevelsOfSplit(l, h.rest);
      assert Levels(key)[1] == Levels(h.rest)[0];
    }
  }

  /** Two filters and names that both lose an empty level: the loss changes nothing. */
  lemma BothSecondEmpty(f: string, t: string)
    requires f != "$" && t != "$" && SecondLevelEmpty(f) && SecondLevelEmpty(t)
    ensures LevelsMatch(Levels(f), Levels(t)) <==> LevelsMatch(KeptLevels(f), KeptLevels(t))
  {
    LevelsOfEmptySecond(f);
    LevelsOfEmptySecond(t);
    var fl, tl := Levels(f), Levels(t);
    assert fl[1..][0] == fl[1] && tl[1..][0] == tl[1];
    assert fl[1..][1..] == fl[2..] && tl[1..][1..] == tl[2..];
    assert ([fl[0]] + fl[2..])[1..] == fl[2..] && ([tl[0]] + tl[2..])[1..] == tl[2..];
  }

  /** Only the filter loses an empty level: by the standard it never matches. */
  lemma FilterSecondEmpty(f: string, t: string)
    requires f != "$" && t != "" && t != "$" && SecondLevelEmpty(f) && !SecondLevelEmpty(t)
    ensures !LevelsMatch(Levels(f), Levels(t))
  {
    LevelsOfEmptySecond(f);
    LevelsOfFullSecond(t);
    var fl, tl := Levels(f), Levels(t);
    assert fl[1..][0] == "" && (|tl| > 1 ==> tl[1..][0] == tl[1]);
  }

  /** The first level of the filter lets the first level of the name pass. */
  predicate FirstLevelPasses(f: string, t: string)
  {
    Levels(f)[0] == "+" || Levels(f)[0] == Levels(t)[0]
  }

  /** Only the name loses an empty level: the rest of the filter is held against a name with the
      empty level by the standard, and against one without it by `search`. */
  lemma NameSecondEmpty(f: string, t: string)
    requires f != "$" && f != "" && t != "$" && !SecondLevelEmpty(f) && SecondLevelEmpty(t) && Levels(f)[0] != "#"
    ensures var r, u := Levels(f)[1..], Levels(t)[2..];
      && (LevelsMatch(Levels(f), Levels(t)) <==> FirstLevelPasses(f, t) && LevelsMatch(r, [""] + u))
      && (LevelsMatch(KeptLevels(f), KeptLevels(t)) <==> FirstLevelPasses(f, t) && LevelsMatch(r, u))
  {
    LevelsOfFullSecond(f);
    LevelsOfEmptySecond(t);
    var tl := Levels(t);
    assert tl[1..] == [""] + tl[2..];
    assert ([tl[0]] + tl[2..])[1..] == tl[2..];
  }

  /** Without "#" a filter fixes the number of levels. */
  lemma {:induction false} LengthIsFixed(filter: seq<string>, name: seq<string>)
    requires "#" !in filter && LevelsMatch(filter, name)
    ensures |filter| == |name|
    decreases |filter|
  {
    if filter == [] {
    } else {
      assert filter[0] in filter;
      LengthIsFixed(filter[1..], name[1..]);
    }
  }

  /** So without "#" at most one of the two readings of the name can match. */
  lemma AtMostOneMatches(filter: seq<string>, name: seq<string>)
    requires "#" !in filter
    ensures !(LevelsMatch(filter, [""] + name) && LevelsMatch(filter, name))
  {
    if LevelsMatch(filter, [""] + name) && LevelsMatch(filter, name) {
      LengthIsFixed(filter, [""] + name);
      LengthIsFixed(filter, name);
    }
  }

  /** Where `search` departs from the standard. With all levels kept: a final node's own list hides
      a "#" list one level up, or a leading "+" is followed for a "$" name. With an empty second
      level dropped on one side only: the filter gets a name it should not, or misses one. */
  predicate Departs(store: Store, f: string, t: string)
    requires f != "" && f != "$" && t != "" && t != "$"
  {
    var hidden := Hidden(store, FilterPath(f), TopicOf(t));
    var dollar := t[0] == '$' && f[0] == '+';
    if SecondLevelEmpty(f) == SecondLevelEmpty(t) then
      LevelsMatch(Levels(f), Levels(t)) && (if dollar then !hidden else hidden)
    else if SecondLevelEmpty(f) then
      LevelsMatch(KeptLevels(f), Levels(t)) && !hidden
    else
      var r, u := Levels(f)[1..], Levels(t)[2..];
      && f[0] != '#' && FirstLevelPasses(f, t)
      && (LevelsMatch(r, [""] + u) && !dollar) != (LevelsMatch(r, u) && !hidden)
  }

  lemma FirstIsPound(f: string)
    requires LeadingWildcardAlone(f) && f != "" && f != "$"
    ensures f[0] == '#' <==> Levels(f)[0] == "#"
    ensures f[0] == '#' ==> f == "#" && !SecondLevelEmpty(f)
  {
    LevelsOfSplit("#", "");
    if Levels(f)[0] == "#" {
      assert Level(f) == "#" && f[0] == Level(f)[0];
    }
  }

  /** For every name and every filter whose leading wildcard stands alone: the lists that `search`
      selects are those of section 4.7 exactly where it does not depart. */
  lemma SelectionIsStandardUnlessDeparts(store: Store, f: string, t: string)
    requires LeadingWildcardAlone(f) && f != "" && f != "$" && t != "" && t != "$"
    ensures (Selects(store, FilterPath(f), TopicOf(t)) <==> Matches(f, t)) <==> !Departs(store, f, t)
  {
    SelectionIsLevelMatching(store, f, t);
    FirstIsPound(f);
    if f[0] == '#' {
      assert !Hidden(store, FilterPath(f), TopicOf(t));
      assert LevelsMatch(Levels(f), Levels(t)) && LevelsMatch(KeptLevels(f), KeptLevels(t));
    } else if SecondLevelEmpty(f) && SecondLevelEmpty(t) {
      BothSecondEmpty(f, t);
    } else if SecondLevelEmpty(f) {
      LevelsOfFullSecond(t);
      FilterSecondEmpty(f, t);
    } else if SecondLevelEmpty(t) {
      NameSecondEmpty(f, t);
    } else {
      LevelsOfFullSecond(f);
      LevelsOfFullSecond(t);
    }
  }

  /** A client subscribed to "+" gets the name "/", which has two levels. */
  lemma EmptySecondLevelIsExtra(store: Store)
    ensures Selects(store, FilterPath("+"), TopicOf("/")) && !Matches("+", "/")
  {
    LevelsOfSplit("+", "");
    LevelsOfSplit("", "");
    assert "/" == "" + "/" + "" && "/"[1..] == "" && "+"[1..] == "";
    assert FilterPath("+") == Exact(Child(Root, Plus)) && TopicOf("/").tokens == ["/"];
    assert Reached(Child(Root, Plus), TopicOf("/"), 1);
    assert Levels("/")[1..] == [""] && Levels("+")[1..] == [];
  }

  /** With an empty second level the two rules part: "/+" matches the name "/" by the standard,
      but the walk sees the one token "/" and finds no level for the "+". */
  lemma EmptySecondLevelIsLost(store: Store)
    ensures Matches("/+", "/") && !Selects(store, FilterPath("/+"), TopicOf("/"))
  {
    LevelsOfSplit("", "+");
    LevelsOfSplit("", "");
    LevelsOfSplit("+", "");
    assert "/+" == "" + "/" + "+" && "/" == "" + "/" + "";
    assert "/+"[1..] == "+" && "/"[1..] == "" && "+"[1..] == "";
    LevelOfPrefix("+", "");
    assert "+" + "" == "+";
    var a := Child(Root, Lit("/"));
    assert Tokens("+") == ["+"] + Tokens("");
    assert Walk(a, ["+"]) == Walk(Child(a, Plus), []);
    assert TopicOf("/").tokens == ["/"];
    assert Depth(Child(a, Plus)) == 2;
    if Reached(Child(a, Plus), TopicOf("/"), 1) {
      ReachedDepth(Child(a, Plus), TopicOf("/"), 1);
    }
  }
}
