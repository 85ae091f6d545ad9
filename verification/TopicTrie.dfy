/** The topic trie of src/filtering.c: nodes on the heap, changed in place, proved to be an index
    over the flat store of module TopicStore. */
module TopicTrie {
  import opened Prelude
  import opened Topics
  import opened SubscriberLists
  import opened TopicStore
  import opened Scanning
  import opened TrieShape
  import opened Frontier

  /** The global variables `root` and `sys`. Of the node fields, `root` uses `pound` for its "#" list. */
  class Trie {
    const root: TrieNode
    const sys: TrieNode
    /** Every node, under the way to it, and what its fields hold. */
    ghost var nodes: map<Addr, TrieNode>
    ghost var views: Views
    ghost var repr: set<TrieNode>
    /** The flat store this trie is an index of. */
    ghost var store: Store

    ghost predicate Synced()
      reads this, repr
    {
      && nodes.Keys == views.Keys
      && (forall a :: a in nodes ==> nodes[a] in repr && nodes[a].at == a && nodes[a].View() == views[a])
    }

    /** The tree may have one dead node, which is being filled or is about to be pruned. */
    ghost predicate ValidBut(but: Addr)
      reads this, repr
    {
      && Synced() && Shape(nodes, store, views, but)
      && nodes[Root] == root && nodes[Sys] == sys
    }

    ghost predicate Valid()
      reads this, repr
    {
      ValidBut(Root)
    }

    constructor ()
      ensures Valid() && store == map[] && nodes.Keys == {Root, Sys}
      ensures fresh(repr)
    {
      root := new TrieNode("", Root);
      sys := new TrieNode("", Sys);
      nodes := map[Root := root, Sys := sys];
      views := map[Root := NEW, Sys := NEW];
      repr := {root, sys};
      store := map[];
      new;
      EmptyTrie(nodes);
    }

    // ---------- insertion ----------

    /** A new child, also in the pictures kept of the heap. */
    method Attach(node: TrieNode, e: Edge, ghost a: Addr) returns (child: TrieNode)
      requires Synced() && a in nodes && nodes[a] == node && Child(a, e) !in nodes
      modifies this`nodes, this`views, this`repr, node
      ensures Synced() && fresh(child) && repr == old(repr) + {child}
      ensures child.at == Child(a, e) && child.key == EdgeToken(e)
      ensures nodes == old(nodes)[Child(a, e) := child]
      ensures views == old(views)[a := old(views)[a].With(e, child)][Child(a, e) := NEW]
    {
      child := node.AddChild(e, Child(a, e));
      views := views[a := node.View()][Child(a, e) := NEW];
      nodes := nodes[Child(a, e) := child];
      repr := repr + {child};
    }

    /** `initNode`, `initSYSNode`, `initPlusNode`, `insert` and `insertPlus`: find the child or make it. */
    method FindOrInsert(node: TrieNode, e: Edge, ghost a: Addr) returns (child: TrieNode)
      requires ValidBut(a)
      requires a in nodes && nodes[a] == node && GoodEdge(a, e)
      modifies this`nodes, this`views, this`repr, node
      ensures ValidBut(Child(a, e))
      ensures Child(a, e) in nodes && nodes[Child(a, e)] == child
      ensures fresh(repr - old(repr))
    {
      var found := node.View().Next(e);
      if found != null {
        FoundNode(nodes, store, views, a, e);
        return found;
      }
      MissingNode(nodes, views, a, e);
      child := Attach(node, e, a);
      AddNode(old(nodes), store, old(views), a, e, child);
    }

    method SetList(node: TrieNode, inPound: bool, l: seq<Entry>, ghost p: Path)
      requires Synced() && p.at in nodes && nodes[p.at] == node && p.Pound? == inPound
      modifies this`views, node
      ensures Synced()
      ensures views == old(views)[p.at := old(views)[p.at].WithList(p, l)]
    {
      node.SetList(inPound, l);
      views := views[p.at := node.View()];
    }

    /** `utarray_new` on first use, `utarray_push_back`, `deduplication`. */
    method NewList(node: TrieNode, e: Entry, ghost p: Path, inPound: bool) returns (l: seq<Entry>)
      requires ValidBut(p.at)
      requires p.at in nodes && nodes[p.at] == node && p.Pound? == inPound
      ensures Added(Or(Get(store, p)), l, e)
    {
      l := if inPound then Or(node.pound) else Or(node.list);
      AddEntryView(nodes, store, views, p);
      l := Add(l, e);
    }

    method AddSubscriber(node: TrieNode, e: Entry, ghost p: Path, inPound: bool)
      requires ValidBut(p.at)
      requires p.at in nodes && nodes[p.at] == node && p.Pound? == inPound
      modifies this`views, this`store, node
      ensures Valid()
      ensures p in store && store == old(store)[p := store[p]]
      ensures Added(Or(Get(old(store), p)), store[p], e)
    {
      hide Shape;
      var added := NewList(node, e, p, inPound);
      AddEntry(nodes, store, views, p, added);
      SetList(node, inPound, added, p);
      store := store[p := added];
    }

    /** The first level of a filter that does not start with "#" (src/filtering.c:177-204). */
    method FirstNode(key: string) returns (crawl: TrieNode, i: nat, tmpInt: nat, ghost at: Addr)
      requires Valid() && key != "$" && (key != "" ==> key[0] != '#')
      modifies this`nodes, this`views, this`repr, repr
      ensures ValidBut(at) && at.Child? && at in nodes && nodes[at] == crawl && fresh(repr - old(repr))
      ensures (i > 0 || key == "") && i <= |key| && Walk(at, Tokens(key[i..])) == FilterPath(key)
      ensures i < |key| && key[i] != '/' ==> tmpInt == i
    {
      var first, inSys;
      inSys, first, i, tmpInt := FirstLevel(key);
      crawl := FindOrInsert(if inSys then sys else root, first, Base(inSys));
      at := Child(Base(inSys), first);
    }

    /** One level further down, unless the token is "#". */
    method Step(crawl: TrieNode, token: string, ghost at: Addr, ghost rest: seq<string>)
      returns (next: TrieNode, pound: bool, ghost to: Addr)
      requires ValidBut(at) && at.Child? && at in nodes && nodes[at] == crawl && Token(token)
      modifies this`nodes, this`views, this`repr, crawl
      ensures ValidBut(to) && to.Child? && to in nodes && nodes[to] == next && fresh(repr - old(repr))
      ensures Walk(at, [token] + rest) == if pound then Pound(to) else Walk(to, rest)
    {
      hide Shape;
      StepOfWalk(at, token, rest);
      if token == "#" {
        return crawl, true, at;
      }
      next := FindOrInsert(crawl, EdgeOf(token), at);
      pound, to := false, Child(at, EdgeOf(token));
    }

    /** One round of the scanning loop of `intercept`. */
    method Round(crawl: TrieNode, key: string, i: nat, tmpInt: nat, ghost at: Addr)
      returns (to: TrieNode, pound: bool, next: nat, tmp: nat, ghost at': Addr)
      requires ValidBut(at) && at.Child? && at in nodes && nodes[at] == crawl
      requires 0 < i < |key| && (key[i] != '/' ==> tmpInt == i)
      modifies this`nodes, this`views, this`repr, crawl
      ensures ValidBut(at') && at'.Child? && at' in nodes && nodes[at'] == to && fresh(repr - old(repr))
      ensures i < next <= |key| && (next < |key| && key[next] != '/' ==> tmp == next)
      ensures Walk(at, Tokens(key[i..])) == if pound then Pound(at') else Walk(at', Tokens(key[next..]))
    {
      hide Shape;
      var token;
      token, next, tmp := NextToken(key, i, tmpInt);
      if token.Some? {
        to, pound, at' := Step(crawl, token.value, at, Tokens(key[next..]));
      } else {
        to, pound, at' := crawl, false, at;
      }
    }

    /** The scanning loop of `intercept` (src/filtering.c:206-228). */
    method Descend(key: string, first: TrieNode, start: nat, tmp: nat, ghost top: Addr, ghost goal: Path)
      returns (crawl: TrieNode, pound: bool, ghost at: Addr)
      requires ValidBut(top) && top.Child? && top in nodes && nodes[top] == first
      requires (start > 0 || key == "") && start <= |key| && (start < |key| && key[start] != '/' ==> tmp == start)
      requires goal == Walk(top, Tokens(key[start..]))
      modifies this`nodes, this`views, this`repr, repr
      ensures ValidBut(at) && at in nodes && nodes[at] == crawl && fresh(repr - old(repr))
      ensures goal == if pound then Pound(at) else Exact(at)
    {
      hide Shape;
      crawl, pound, at := first, false, top;
      var i, tmpInt := start, tmp;
      while i < |key| && !pound
        invariant ValidBut(at) && at.Child? && at in nodes && nodes[at] == crawl && fresh(repr - old(repr))
        invariant start <= i <= |key| && goal == if pound then Pound(at) else Walk(at, Tokens(key[i..]))
        invariant i < |key| && key[i] != '/' ==> tmpInt == i
        decreases |key| - i
      {
        crawl, pound, i, tmpInt, at := Round(crawl, key, i, tmpInt, at);
      }
    }

    /** Find or make the node whose list a filter denotes, and say which of its two lists it is. */
    method Locate(key: string) returns (crawl: TrieNode, pound: bool, ghost at: Addr)
      requires Valid() && key != "$"
      modifies this`nodes, this`views, this`repr, repr
      ensures ValidBut(at) && at in nodes && nodes[at] == crawl && fresh(repr - old(repr))
      ensures FilterPath(key) == if pound then Pound(at) else Exact(at)
    {
      if |key| > 0 && key[0] == '#' {
        return root, true, Root;
      }
      var i, tmpInt;
      crawl, i, tmpInt, at := FirstNode(key);
      crawl, pound, at := Descend(key, crawl, i, tmpInt, at, FilterPath(key));
    }

    /** `intercept`: subscribe a client to a filter. */
    method Intercept(key: string, maxQos: int, client: string)
      requires Valid() && key != "$"
      modifies this`nodes, this`views, this`repr, this`store, repr
      ensures Valid() && fresh(repr - old(repr))
      ensures FilterPath(key) in store && store == old(store)[FilterPath(key) := store[FilterPath(key)]]
      ensures Added(Or(Get(old(store), FilterPath(key))), store[FilterPath(key)], Entry(maxQos, client))
    {
      hide Shape;
      var ic := Entry(maxQos, client);
      var crawl, pound, at := Locate(key);
      AddSubscriber(crawl, ic, FilterPath(key), pound);
    }

    // ---------- deletion ----------

    /** The effect of a deletion on the nodes and lists. */
    twostate predicate Gone(p: Path, client: string)
      reads this
    {
      Thinned(Updated(old(store), p, client), nodes.Keys, store) && Kept()
    }

    twostate predicate Kept()
      reads this
    {
      forall b :: b in nodes ==> b in old(nodes) && nodes[b] == old(nodes)[b]
    }

    /** The C code dereferences the list at the end of the path, if it gets there. */
    ghost predicate Reachable(p: Path)
      reads this
    {
      p.at in nodes ==> p in store
    }

    /** `delete_client_id` on one of the lists of a node. */
    method Shortened(node: TrieNode, client: string, ghost p: Path, inPound: bool) returns (l: seq<Entry>)
      requires Valid() && p in store && p.at in nodes && nodes[p.at] == node && p.Pound? == inPound
      ensures l == RemoveAtMiddle(store[p], client)
      ensures Shape(nodes, store[p := l], views[p.at := views[p.at].WithList(p, l)], p.at)
    {
      RemoveEntry(nodes, store, views, p, client);
      l := DeleteClientId((if inPound then node.pound else node.list).value, client);
    }

    method DeleteAt(node: TrieNode, client: string, ghost p: Path, inPound: bool)
      requires Valid() && p in store && p.at in nodes && nodes[p.at] == node && p.Pound? == inPound
      modifies this`views, this`store, node
      ensures ValidBut(p.at)
      ensures store == old(store)[p := RemoveAtMiddle(old(store)[p], client)]
    {
      hide Shape;
      var l := Shortened(node, client, p, inPound);
      SetList(node, inPound, l, p);
      store := store[p := l];
    }

    method Detach(node: TrieNode, child: TrieNode, ghost a: Addr, ghost e: Edge)
      requires Synced() && a in nodes && nodes[a] == node && e != Lit("+") && child.key == EdgeToken(e)
      modifies this`views, node
      ensures Synced()
      ensures views == old(views)[a := old(views)[a].Without(e)]
    {
      node.Detach(child, e);
      views := views[a := node.View()];
    }

    ghost method Forget(c: Addr)
      requires Synced()
      modifies this`nodes, this`views, this`store
      ensures Synced()
      ensures nodes == Cut(old(nodes), c) && views == Cut(old(views), c) && store == CutStore(old(store), c)
    {
      nodes, views, store := Cut(nodes, c), Cut(views, c), CutStore(store, c);
    }

    /** HASH_DEL of a dead child. */
    method CutChild(node: TrieNode, child: TrieNode, ghost a: Addr, ghost e: Edge)
      requires ValidBut(Child(a, e)) && a in nodes && nodes[a] == node && e != Lit("+")
      requires Child(a, e) in nodes && nodes[Child(a, e)] == child && child.View().Dead()
      modifies this`nodes, this`views, this`store, node
      ensures ValidBut(a) && nodes == Cut(old(nodes), Child(a, e)) && a in nodes
      ensures store == CutStore(old(store), Child(a, e))
      ensures Or(Get(old(store), Exact(Child(a, e)))) == [] && Or(Get(old(store), Pound(Child(a, e)))) == []
    {
      KeyOfChild(nodes, views, a, e);
      CutNode(nodes, store, views, a, e);
      Detach(node, child, a, e);
      Forget(Child(a, e));
    }

    /** The DELETE macro: drop a child that has become useless. */
    method Prune(node: TrieNode, child: TrieNode, ghost a: Addr, ghost e: Edge,
                 ghost updated: Store)
      requires ValidBut(Child(a, e)) && a in nodes && nodes[a] == node && e != Lit("+")
      requires Child(a, e) in nodes && nodes[Child(a, e)] == child
      requires Thinned(updated, nodes.Keys, store)
      modifies this`nodes, this`views, this`store, node
      ensures ValidBut(a) && a in nodes && nodes[a] == node && Kept()
      ensures Thinned(updated, nodes.Keys, store)
    {
      if child.View().Dead() {
        CutChild(node, child, a, e);
        ThinnedThenCut(updated, old(nodes.Keys), old(store), Child(a, e));
        assert nodes.Keys == old(nodes.Keys) - {Child(a, e)};
      }
    }

    method DeleteHere(node: TrieNode, client: string, ghost p: Path, inPound: bool)
      requires Valid() && p.at in nodes && Reachable(p) && nodes[p.at] == node && p.Pound? == inPound
      modifies this`nodes, this`views, this`store, node
      ensures ValidBut(p.at) && p.at in nodes && nodes[p.at] == node
      ensures Gone(p, client)
    {
      DeleteAt(node, client, p, inPound);
    }

    /** HASH_FIND_STR in one of the two tables. */
    method FindChild(node: TrieNode, e: Edge, ghost a: Addr) returns (child: TrieNode?)
      requires Valid() && a in nodes && nodes[a] == node
      ensures child == At(nodes, Child(a, e))
    {
      child := node.View().Next(e);
      ChildIsNext(nodes, views, a, e);
    }

    /** The part of `delete_node` that descends: find the child, recurse, prune it on the way back. */
    method DeleteBelow(node: TrieNode, e: Edge, rest: string, client: string, ghost a: Addr)
      requires Valid() && a.Child? && a in nodes && nodes[a] == node && e != Lit("+")
      requires Reachable(Walk(Child(a, e), Tokens(rest)))
      modifies this`nodes, this`views, this`store, repr
      ensures ValidBut(a) && a in nodes && nodes[a] == node
      ensures Gone(Walk(Child(a, e), Tokens(rest)), client)
      decreases |rest|, 1
    {
      ghost var p := Walk(Child(a, e), Tokens(rest));
      var out := FindChild(node, e, a);
      if out == null {
        NothingToRemove(nodes, store, views, p, client, Child(a, e), Tokens(rest));
        return;
      }
      DeleteNode(out, rest, client, Child(a, e));
      assert Below(nodes, Child(a, e));
      Prune(node, out, a, e, Updated(old(store), p, client));
    }

    /** `delete_node`: follow the rest of a filter, one level or one slash at a time. With the empty
        key the C function goes on to look for a child called "", which never exists. */
    method DeleteNode(node: TrieNode, key: string, client: string, ghost a: Addr)
      requires Valid() && a.Child? && a in nodes && nodes[a] == node
      requires Reachable(Walk(a, Tokens(key)))
      modifies this`nodes, this`views, this`store, repr
      ensures ValidBut(a) && a in nodes && nodes[a] == node
      ensures Gone(Walk(a, Tokens(key)), client)
      decreases |key|, 0
    {
      if |key| == 0 {
        DeleteHere(node, client, Exact(a), false);
      } else if key[0] == '/' {
        if |key| == 1 || key[1] == '/' {
          WalkOfSlash(a, key);
          DeleteBelow(node, Lit("/"), key[1..], client, a);
        } else {
          WalkOfSlash(a, key);
          DeleteNode(node, key[1..], client, a);
        }
      } else {
        var i := LevelEnd(key, 0);
        WalkOfLevel(a, key, i);
        if key[..i] == "#" {
          DeleteHere(node, client, Pound(a), true);
        } else {
          DeleteBelow(node, EdgeOf(key[..i]), key[i..], client, a);
        }
      }
    }

    /** `delete_topic` below the first level. */
    method DeleteFrom(key: string, client: string)
      requires Valid() && key != "$" && Reachable(FilterPath(key)) && (key == "" || key[0] != '#') && !SysPlus(key)
      modifies this`nodes, this`views, this`store, repr
      ensures Valid() && Gone(FilterPath(key), client)
    {
      var inSys, first, i, _ := FirstLevel(key);
      ghost var p := FilterPath(key);
      var top := if inSys then sys else root;
      var node := FindChild(top, first, Base(inSys));
      if node == null {
        NothingToRemove(nodes, store, views, p, client, Child(Base(inSys), first), Tokens(key[i..]));
        return;
      }
      DeleteNode(node, key[i..], client, Child(Base(inSys), first));
      Prune(top, node, Base(inSys), first, Updated(old(store), p, client));
    }

    /** `delete_topic`: unsubscribe a client from a filter. */
    method DeleteTopic(key: string, client: string)
      requires Valid() && key != "$" && Reachable(FilterPath(key)) && !SysPlus(key)
      modifies this`nodes, this`views, this`store, repr
      ensures Valid() && store == Deleted(old(store), FilterPath(key), client)
    {
      if |key| > 0 && key[0] == '#' {
        DeleteHere(root, client, Pound(Root), true);
      } else {
        DeleteFrom(key, client);
      }
      ThinnedIsPruned(nodes, store, views, Updated(old(store), FilterPath(key), client));
      AliveStoreIsPruned(old(nodes), old(store), old(views));
    }

    // ---------- search ----------

    /** The frontier array holds the nodes of a list of addresses. */
    ghost predicate Holds(frontier: seq<TrieNode>, fa: seq<Addr>)
      reads this
    {
      && |frontier| == |fa|
      && forall i :: 0 <= i < |fa| ==> fa[i] in nodes && frontier[i] == nodes[fa[i]]
    }

    /** `if(p->...) utarray_push_back(ans_array, ...)` for one child. */
    method Push(ans: seq<TrieNode>, p: TrieNode, e: Edge, ghost fa: seq<Addr>, ghost a: Addr) returns (r: seq<TrieNode>)
      requires Valid() && Holds(ans, fa) && a in nodes && nodes[a] == p
      ensures Holds(r, fa + IfIn(Child(a, e), nodes.Keys))
    {
      var child := FindChild(p, e, a);
      r := if child != null then ans + [child] else ans;
    }

    /** `array_hand`: advance the frontier over one token and gather the "#" lists it leaves behind. */
    method ArrayHand(frontier: seq<TrieNode>, key: string, ghost fa: seq<Addr>)
      returns (ans: seq<TrieNode>, pound: seq<Entry>)
      requires Valid() && Holds(frontier, fa)
      ensures Holds(ans, NextAddrs(fa, nodes.Keys, key))
      ensures Within(PoundHits(fa, store), store) && pound == Flatten(PoundHits(fa, store), store)
    {
      ans, pound := [], [];
      for i := 0 to |frontier|
        invariant Holds(ans, NextAddrs(fa[..i], nodes.Keys, key))
        invariant Within(PoundHits(fa[..i], store), store) && pound == Flatten(PoundHits(fa[..i], store), store)
      {
        var p := frontier[i];
        ghost var a := fa[i];
        assert fa[..i + 1][..i] == fa[..i];
        ans := Push(ans, p, Plus, NextAddrs(fa[..i], nodes.Keys, key), a);
        ans := Push(ans, p, Lit(key), NextAddrs(fa[..i], nodes.Keys, key) + IfIn(Child(a, Plus), nodes.Keys), a);
        pound := Gather(pound, p.pound, PoundHits(fa[..i], store), Pound(a));
      }
      assert fa[..|frontier|] == fa;
    }

    /** `utarray_concat` of a list that exists. */
    method Gather(tmp: seq<Entry>, l: Option<seq<Entry>>, ghost hits: seq<Path>, ghost p: Path) returns (r: seq<Entry>)
      requires Within(hits, store) && tmp == Flatten(hits, store) && l == Get(store, p)
      ensures var all := hits + (if p in store then [p] else []);
        Within(all, store) && r == Flatten(all, store)
    {
      if l.Some? {
        FlattenSnoc(hits, p, store);
        r := tmp + l.value;
      } else {
        assert hits + [] == hits;
        r := tmp;
      }
    }

    lemma TreeOfStore()
      requires Valid()
      ensures OnTree(nodes.Keys, store)
    {
      forall a | a in nodes && a.Child?
        ensures a.parent in nodes.Keys
      {
        assert Below(nodes, a);
      }
    }

    /** The nodes are the roots and the ways to the subscribers. */
    lemma NodesAreWays(a: Addr)
      requires Valid()
      ensures a in nodes <==> !a.Child? || Live(store, a)
    {
      if a in nodes && a.Child? {
        EveryNodeIsLive(nodes, store, views, a);
      }
      if a.Child? && Live(store, a) {
        var p :| p in store && store[p] != [] && Extends(p.at, a);
        WayIsThere(p.at, a);
      }
    }

    lemma {:induction false} WayIsThere(b: Addr, a: Addr)
      requires Valid() && b in nodes && Extends(b, a)
      ensures a in nodes
    {
      if b != a {
        assert Below(nodes, b);
        WayIsThere(b.parent, a);
      }
    }

    /** The lines of `search` before its loop: the root's "#" list and the first level. */
    method StartSearch(key: string) returns (frontier: seq<TrieNode>, tmp: seq<Entry>, i: nat, tmpInt: nat,
                                             ghost fa: seq<Addr>, ghost hits: seq<Path>)
      requires Valid() && key != "$"
      ensures Holds(frontier, fa) && Walked(fa, hits, tmp, nodes.Keys, store, TopicOf(key), 1)
      ensures (i > 0 || key == "") && i <= |key| && (i < |key| && key[i] != '/' ==> tmpInt == i)
      ensures TopicOf(key).tokens[1..] == Tokens(key[i..])
    {
      var inSys, token;
      inSys, token, i, tmpInt := FirstOfName(key);
      ghost var t := TopicOf(key);
      tmp := if root.pound.Some? && !inSys then root.pound.value else [];
      hits := if !t.sys && Pound(Root) in store then [Pound(Root)] else [];
      FirstPassed(store, t);
      FirstCurrent(nodes.Keys, t);
      fa := IfIn(Child(Base(inSys), Lit(token)), nodes.Keys);
      frontier := Push([], if inSys then sys else root, Lit(token), [], Base(inSys));
      frontier := Push(frontier, root, Plus, fa, Root);
      fa := fa + IfIn(Child(Root, Plus), nodes.Keys);
    }

    /** One token further with the whole frontier. */
    method AdvanceFrontier(frontier: seq<TrieNode>, tmp: seq<Entry>, token: string, ghost t: Topic, ghost fa: seq<Addr>,
                           ghost hits: seq<Path>, ghost n: nat)
      returns (frontier': seq<TrieNode>, tmp': seq<Entry>, ghost fa': seq<Addr>, ghost hits': seq<Path>)
      requires Valid() && OnTree(nodes.Keys, store) && n < |t.tokens| && t.tokens[n] == token
      requires Holds(frontier, fa) && Walked(fa, hits, tmp, nodes.Keys, store, t, n)
      ensures Holds(frontier', fa') && Walked(fa', hits', tmp', nodes.Keys, store, t, n + 1)
    {
      var pound;
      WalkedStep(fa, hits, tmp, nodes.Keys, store, t, n);
      frontier', pound := ArrayHand(frontier, token, fa);
      tmp' := tmp + pound;
      hits', fa' := hits + PoundHits(fa, store), NextAddrs(fa, nodes.Keys, token);
    }

    /** One round of the scanning loop of `search`. */
    method SearchRound(key: string, i: nat, tmpInt: nat, frontier: seq<TrieNode>, tmp: seq<Entry>, ghost t: Topic,
                       ghost fa: seq<Addr>, ghost hits: seq<Path>, ghost n: nat)
      returns (i': nat, tmpInt': nat, frontier': seq<TrieNode>, tmp': seq<Entry>,
               ghost fa': seq<Addr>, ghost hits': seq<Path>, ghost n': nat)
      requires Valid() && OnTree(nodes.Keys, store) && 0 < i < |key| && (key[i] != '/' ==> tmpInt == i)
      requires Holds(frontier, fa) && Walked(fa, hits, tmp, nodes.Keys, store, t, n)
      requires t.tokens[n..] == Tokens(key[i..])
      ensures i < i' <= |key| && (i' < |key| && key[i'] != '/' ==> tmpInt' == i')
      ensures Holds(frontier', fa') && Walked(fa', hits', tmp', nodes.Keys, store, t, n')
      ensures t.tokens[n'..] == Tokens(key[i'..])
    {
      var token;
      token, i', tmpInt' := NextToken(key, i, tmpInt);
      frontier', tmp', fa', hits', n' := frontier, tmp, fa, hits, n;
      if token.Some? {
        TokenAt(t.tokens, n, token.value, Tokens(key[i'..]));
        frontier', tmp', fa', hits' := AdvanceFrontier(frontier, tmp, token.value, t, fa, hits, n);
        n' := n + 1;
      }
    }

    /** The loop of `search` over the remaining tokens. */
    method WalkFrontier(key: string, start: nat, tmp0: nat, frontier0: seq<TrieNode>, collected: seq<Entry>,
                        ghost t: Topic, ghost fa0: seq<Addr>, ghost hits0: seq<Path>)
      returns (frontier: seq<TrieNode>, tmp: seq<Entry>, ghost fa: seq<Addr>, ghost hits: seq<Path>)
      requires Valid() && Holds(frontier0, fa0) && Walked(fa0, hits0, collected, nodes.Keys, store, t, 1)
      requires (start > 0 || key == "") && start <= |key| && (start < |key| && key[start] != '/' ==> tmp0 == start)
      requires t.tokens[1..] == Tokens(key[start..])
      ensures Holds(frontier, fa) && Walked(fa, hits, tmp, nodes.Keys, store, t, |t.tokens|)
    {
      frontier, tmp, fa, hits := frontier0, collected, fa0, hits0;
      TreeOfStore();
      if frontier == [] {
        WalkedEmpty(hits, tmp, nodes.Keys, store, t, 1);
        return;
      }
      var i, tmpInt := start, tmp0;
      ghost var n := 1;
      while i < |key|
        invariant start <= i <= |key| && (i < |key| && key[i] != '/' ==> tmpInt == i)
        invariant Holds(frontier, fa) && Walked(fa, hits, tmp, nodes.Keys, store, t, n)
        invariant t.tokens[n..] == Tokens(key[i..])
      {
        i, tmpInt, frontier, tmp, fa, hits, n := SearchRound(key, i, tmpInt, frontier, tmp, t, fa, hits, n);
      }
    }

    /** The last loop of `search` (src/filtering.c:349-355). */
    method FinalLists(frontier: seq<TrieNode>, collected: seq<Entry>, ghost fa: seq<Addr>, ghost hits: seq<Path>)
      returns (tmp: seq<Entry>)
      requires Valid() && Holds(frontier, fa) && Within(hits, store) && collected == Flatten(hits, store)
      requires Within(FinalHits(fa, store), store)
      ensures tmp == collected + Flatten(FinalHits(fa, store), store)
    {
      tmp := [];
      for i := 0 to |frontier|
        invariant Within(FinalHits(fa[..i], store), store) && tmp == Flatten(FinalHits(fa[..i], store), store)
      {
        var p := frontier[i];
        ghost var a, done := fa[i], FinalHits(fa[..i], store);
        assert fa[..i + 1][..i] == fa[..i];
        if p.list.Some? {
          tmp := Gather(tmp, p.list, done, Exact(a));
        } else {
          tmp := Gather(tmp, p.pound, done, Pound(a));
        }
      }
      assert fa[..|frontier|] == fa;
      tmp := collected + tmp;
    }

    /** `search` up to line 357: what the frontier walk collects is what the flat scan collects. */
    method Collect(key: string) returns (tmp: seq<Entry>)
      requires Valid() && key != "$"
      ensures Gathered(tmp, store, TopicOf(key))
    {
      ghost var t := TopicOf(key);
      var frontier, first, i, tmpInt, fa, hits := StartSearch(key);
      frontier, first, fa, hits := WalkFrontier(key, i, tmpInt, frontier, first, t, fa, hits);
      TreeOfStore();
      WalkedAll(fa, hits, first, nodes.Keys, store, t);
      tmp := FinalLists(frontier, first, fa, hits);
      VisitGathers(hits + FinalHits(fa, store), store, t);
    }

    /** `search`: completes exactly when the collected list has at most one surplus entry, and then
        returns every matching client once. */
    method Search(key: string) returns (r: Option<seq<Entry>>)
      requires Valid() && key != "$"
      ensures Answers(r, store, TopicOf(key))
    {
      var tmp := Collect(key);
      r := Deduplication(tmp);
      DeduplicatedAnswers(tmp, r, store, TopicOf(key));
    }
  }

  lemma TokenAt(tokens: seq<string>, n: nat, token: string, rest: seq<string>)
    requires n <= |tokens| && tokens[n..] == [token] + rest
    ensures n < |tokens| && tokens[n] == token && tokens[n + 1..] == rest
  {
    assert tokens[n..][1..] == tokens[n + 1..];
  }
}
