/** The scanning loops of src/filtering.c, proved against the token functions of module Topics. */
module Scanning {
  import opened Prelude
  import opened Topics

  /** The edges that filters create: "+" never hangs directly below `sys`, and below the first level
      no child is called "", "+" or "#". */
  predicate GoodEdge(a: Addr, e: Edge)
  {
    if a.Child? then ValidEdge(e) else a == Sys ==> e.Lit? && e.name != ""
  }

  /** A first level "$+": DELETE looks for such a node in `plus_children` of `sys`, where it is not. */
  predicate SysPlus(key: string)
    requires key != "$"
  {
    HeadOf(key).sys && HeadOf(key).token == "+"
  }

  /** These are the filters that begin with "$+" as a whole level. */
  lemma SysPlusIsSpelledOut(key: string)
    requires key != "$"
    ensures SysPlus(key) <==> |key| > 1 && key[0] == '$' && key[1] == '+' && (|key| > 2 ==> key[2] == '/')
  {
    if |key| > 1 && key[0] == '$' {
      var l, rest := Level(key[1..]), key[1..];
      if l == "+" {
        assert rest[..1] == "+" && rest[0] == key[1] == '+';
        assert |key| > 2 ==> rest[1] == key[2];
      }
    }
  }

  lemma StepOfWalk(at: Addr, token: string, rest: seq<string>)
    ensures Walk(at, [token] + rest) == if token == "#" then Pound(at) else Walk(Child(at, EdgeOf(token)), rest)
  {
    assert ([token] + rest)[1..] == rest;
  }

  lemma WalkOfLevel(a: Addr, key: string, i: nat)
    requires key != "" && key[0] != '/' && i <= |key| && key[0..i] == Level(key[0..])
    ensures Token(key[..i]) && Walk(a, Tokens(key)) ==
      if key[..i] == "#" then Pound(a) else Walk(Child(a, EdgeOf(key[..i])), Tokens(key[i..]))
  {
    assert key[0..] == key;
    StepOfWalk(a, key[..i], Tokens(key[i..]));
  }

  lemma WalkOfSlash(a: Addr, key: string)
    requires key != "" && key[0] == '/'
    ensures Walk(a, Tokens(key)) ==
      if |key| == 1 || key[1] == '/' then Walk(Child(a, Lit("/")), Tokens(key[1..])) else Walk(a, Tokens(key[1..]))
  {
    StepOfWalk(a, "/", Tokens(key[1..]));
    assert [] + Tokens(key[1..]) == Tokens(key[1..]);
  }

  /** One round of the scanning loop that `intercept` and `search` share (src/filtering.c:206-218, 329-341):
      a slash, or the level that starts at `tmpInt`. */
  method NextToken(key: string, i: nat, tmpInt: nat) returns (token: Option<string>, next: nat, tmp: nat)
    requires 0 < i < |key| && (key[i] != '/' ==> tmpInt == i)
    ensures i < next <= |key| && (next < |key| && key[next] != '/' ==> tmp == next)
    ensures token.Some? ==> Token(token.value)
    ensures Tokens(key[i..]) == if token.Some? then [token.value] + Tokens(key[next..]) else Tokens(key[next..])
  {
    if key[i] == '/' {
      token := if i + 1 == |key| || key[i + 1] == '/' || i == 0 then Some("/") else None;
      next, tmp := i + 1, i + 1;
      assert key[i..][1..] == key[next..];
    } else {
      tmp := tmpInt;
      next := LevelEnd(key, i);
      token := Some(key[tmpInt..next]);
    }
  }

  /** `for(i; key[i] != '\\0' && key[i] != '/'; i++)`. */
  method LevelEnd(key: string, start: nat) returns (i: nat)
    requires start <= |key|
    ensures start <= i <= |key| && key[start..i] == Level(key[start..])
    ensures key[i..] == key[start..][|Level(key[start..])|..]
  {
    i := start;
    while i < |key| && key[i] != '/'
      invariant start <= i <= |key|
      invariant '/' !in key[start..i]
    {
      i := i + 1;
    }
    assert key[start..] == key[start..i] + key[i..];
    LevelOfPrefix(key[start..i], key[i..]);
  }

  lemma HeadOfSys(key: string, i: nat)
    requires |key| > 1 && key[0] == '$' && 1 <= i <= |key|
    requires key[1..i] == Level(key[1..]) && key[i..] == key[1..][|Level(key[1..])|..]
    ensures HeadOf(key) == if i == 1 then Head(true, "/", key[2..]) else Head(true, key[1..i], key[i..])
  {
  }

  lemma HeadOfPlain(key: string, i: nat)
    requires key != "" ==> key[0] != '/' && key[0] != '$'
    requires i <= |key| && key[0..i] == Level(key[0..]) && key[i..] == key[0..][|Level(key[0..])|..]
    ensures HeadOf(key) == Head(false, key[..i], key[i..]) && (i > 0 || key == "")
  {
    assert key[0..] == key;
  }

  /** The first-level scan that `intercept`, `delete_topic` and `search` have in common. */
  method HeadScan(key: string) returns (inSys: bool, token: string, i: nat, tmpInt: nat)
    requires key != "$"
    ensures i <= |key| && HeadOf(key) == Head(inSys, token, key[i..]) && (inSys ==> token != "")
    ensures (i > 0 || key == "") && i <= |key| && (i < |key| && key[i] != '/' ==> tmpInt == i)
  {
    inSys, tmpInt := false, 0;
    if |key| > 0 && key[0] == '/' {
      token, tmpInt, i := "/", 1, 1;
    } else if |key| > 0 && key[0] == '$' {
      inSys := true;
      assert |key| == 1 ==> key == "$";
      i := LevelEnd(key, 1);
      HeadOfSys(key, i);
      if i == 1 {
        token, tmpInt, i := "/", 2, 2;
      } else {
        token := key[1..i];
      }
    } else {
      i := LevelEnd(key, 0);
      HeadOfPlain(key, i);
      token := key[..i];
    }
  }

  lemma FilterPathAfterHead(key: string)
    requires key != "$" && (key != "" ==> key[0] != '#')
    ensures FilterPath(key) ==
      if key != "" && key[0] == '+' then Walk(Child(Root, Plus), Tokens(key[1..]))
      else Walk(Child(Base(HeadOf(key).sys), Lit(HeadOf(key).token)), Tokens(HeadOf(key).rest))
  {
  }

  /** The first-level scan shared by `intercept` and `delete_topic`. */
  method FirstLevel(key: string) returns (inSys: bool, first: Edge, i: nat, tmpInt: nat)
    requires key != "$" && (key != "" ==> key[0] != '#')
    ensures (i > 0 || key == "") && i <= |key|
    ensures Walk(Child(Base(inSys), first), Tokens(key[i..])) == FilterPath(key)
    ensures i < |key| && key[i] != '/' ==> tmpInt == i
    ensures GoodEdge(Base(inSys), first) && (first == Lit("+") ==> SysPlus(key))
  {
    FilterPathAfterHead(key);
    if |key| > 0 && key[0] == '+' {
      inSys, first, tmpInt, i := false, Plus, 1, 1;
    } else {
      var token;
      inSys, token, i, tmpInt := HeadScan(key);
      first := Lit(token);
    }
  }

  /** The first-level scan of `search` (src/filtering.c:298-320). */
  method FirstOfName(key: string) returns (inSys: bool, token: string, i: nat, tmpInt: nat)
    requires key != "$"
    ensures (i > 0 || key == "") && i <= |key| && (i < |key| && key[i] != '/' ==> tmpInt == i)
    ensures TopicOf(key) == Topic(inSys, [token] + Tokens(key[i..]))
  {
    inSys, token, i, tmpInt := HeadScan(key);
  }
}
