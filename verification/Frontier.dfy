/** The frontier walk of `search`, on addresses: which nodes are current after each token, and
    which "#" lists have been passed. */
module Frontier {
  import opened Prelude
  import opened Topics
  import opened SubscriberLists
  import opened TopicStore

  /** The addresses of a tree: every node's parent is a node. */
  ghost predicate Closed(keys: set<Addr>)
  {
    forall a {:trigger a.parent} :: a in keys && a.Child? ==> a.parent in keys
  }

  /** The frontier holds each node that matches the first `n` tokens, once. */
  ghost predicate Current(fa: seq<Addr>, keys: set<Addr>, t: Topic, n: nat)
  {
    && NoDuplicates(fa)
    && forall a :: a in fa <==> a in keys && Reached(a, t, n)
  }

  function IfIn(a: Addr, keys: set<Addr>): seq<Addr>
  {
    if a in keys then [a] else []
  }

  /** `array_hand`: from each node to its "+" child and to the child of the token. */
  function NextAddrs(fa: seq<Addr>, keys: set<Addr>, token: string): seq<Addr>
  {
    if fa == [] then []
    else
      var a := fa[|fa| - 1];
      NextAddrs(fa[..|fa| - 1], keys, token) + IfIn(Child(a, Plus), keys) + IfIn(Child(a, Lit(token)), keys)
  }

  lemma {:induction false} NextAddrsAreChildren(fa: seq<Addr>, keys: set<Addr>, token: string)
    requires NoDuplicates(fa)
    ensures NoDuplicates(NextAddrs(fa, keys, token))
    ensures forall c :: c in NextAddrs(fa, keys, token) <==>
      c in keys && c.Child? && c.parent in fa && (c.last == Plus || c.last == Lit(token))
  {
    if fa == [] {
    } else {
      var init, a := fa[..|fa| - 1], fa[|fa| - 1];
      NextAddrsAreChildren(init, keys, token);
      assert fa == init + [a];
      assert a !in init;
    }
  }

  lemma CurrentAdvances(fa: seq<Addr>, keys: set<Addr>, t: Topic, n: nat)
    requires Closed(keys) && Current(fa, keys, t, n) && 0 < n < |t.tokens|
    ensures Current(NextAddrs(fa, keys, t.tokens[n]), keys, t, n + 1)
  {
    NextAddrsAreChildren(fa, keys, t.tokens[n]);
  }

  lemma FirstCurrent(keys: set<Addr>, t: Topic)
    requires t.tokens != []
    ensures Current(IfIn(Child(Base(t.sys), Lit(t.tokens[0])), keys) + IfIn(Child(Root, Plus), keys), keys, t, 1)
  {
  }

  ghost predicate Unreached(keys: set<Addr>, t: Topic, n: nat)
  {
    forall a :: a in keys ==> !Reached(a, t, n)
  }

  /** `if(utarray_front(pCrawl) != NULL)`: an empty frontier stays empty. */
  lemma {:induction false} NothingReached(keys: set<Addr>, t: Topic, n: nat, m: nat)
    requires Closed(keys) && Unreached(keys, t, n) && 0 < n <= m
    ensures Unreached(keys, t, m)
    decreases m
  {
    if n < m {
      NothingReached(keys, t, n, m - 1);
      forall a | a in keys
        ensures !Reached(a, t, m)
      {
        assert a.Child? ==> a.parent in keys;
      }
    }
  }

  // ---------- the lists read on the way ----------

  /** The "#" lists of the nodes of a frontier. */
  function PoundHits(fa: seq<Addr>, store: Store): seq<Path>
  {
    if fa == [] then []
    else
      var p := Pound(fa[|fa| - 1]);
      PoundHits(fa[..|fa| - 1], store) + (if p in store then [p] else [])
  }

  lemma {:induction false} PoundHitsAreExact(fa: seq<Addr>, store: Store)
    requires NoDuplicates(fa)
    ensures NoDuplicates(PoundHits(fa, store)) && Within(PoundHits(fa, store), store)
    ensures forall p :: p in PoundHits(fa, store) <==> p.Pound? && p.at in fa && p in store
  {
    if fa == [] {
    } else {
      var init, a := fa[..|fa| - 1], fa[|fa| - 1];
      PoundHitsAreExact(init, store);
      assert fa == init + [a];
      assert a !in init;
    }
  }

  /** The "#" lists met while the first `n` tokens were consumed: those at a shallower depth. */
  ghost predicate Passed(hits: seq<Path>, store: Store, t: Topic, n: nat)
  {
    && NoDuplicates(hits) && Within(hits, store)
    && forall p :: p in hits <==> p in store && PassedBy(p, t, n)
  }

  predicate PassedBy(p: Path, t: Topic, n: nat)
  {
    p.Pound? && if p.at.Child? then Depth(p.at) < n && Reached(p.at, t, Depth(p.at)) else p.at == Root && !t.sys
  }

  lemma {:induction false} ReachedDepth(a: Addr, t: Topic, n: nat)
    requires Reached(a, t, n)
    ensures Depth(a) == n
  {
    if n == 1 {
      assert a.parent == Root || a.parent == Sys;
    } else {
      ReachedDepth(a.parent, t, n - 1);
    }
  }

  lemma PassedAdvances(hits: seq<Path>, fa: seq<Addr>, keys: set<Addr>, store: Store, t: Topic, n: nat)
    requires Passed(hits, store, t, n) && Current(fa, keys, t, n) && 0 < n
    requires forall p :: p in store ==> p.at in keys
    ensures Passed(hits + PoundHits(fa, store), store, t, n + 1)
  {
    PoundHitsAreExact(fa, store);
    forall p | p in store && p.Pound? && Reached(p.at, t, n)
      ensures Depth(p.at) == n
    {
      ReachedDepth(p.at, t, n);
    }
  }

  lemma FirstPassed(store: Store, t: Topic)
    ensures Passed(if !t.sys && Pound(Root) in store then [Pound(Root)] else [], store, t, 1)
  {
    forall p | p in store && PassedBy(p, t, 1)
      ensures p == Pound(Root)
    {
    }
  }

  lemma {:induction false} PassedStays(hits: seq<Path>, keys: set<Addr>, store: Store, t: Topic, n: nat, m: nat)
    requires Closed(keys) && Unreached(keys, t, n) && 0 < n <= m && Passed(hits, store, t, n)
    requires forall p :: p in store ==> p.at in keys
    ensures Passed(hits, store, t, m)
  {
    forall p | p in store
      ensures PassedBy(p, t, n) <==> PassedBy(p, t, m)
    {
      if p.at.Child? && Depth(p.at) >= n {
        NothingReached(keys, t, n, Depth(p.at));
      }
    }
  }

  /** The last loop of `search`: a final node gives its own list if it has one, else its "#" list. */
  function FinalHits(fa: seq<Addr>, store: Store): seq<Path>
  {
    if fa == [] then []
    else
      var a := fa[|fa| - 1];
      FinalHits(fa[..|fa| - 1], store)
      + (if Exact(a) in store then [Exact(a)] else if Pound(a) in store then [Pound(a)] else [])
  }

  lemma {:induction false} FinalHitsAreExact(fa: seq<Addr>, store: Store)
    requires NoDuplicates(fa)
    ensures NoDuplicates(FinalHits(fa, store)) && Within(FinalHits(fa, store), store)
    ensures forall p :: p in FinalHits(fa, store) <==> p.at in fa && p in store && (p.Pound? ==> Exact(p.at) !in store)
  {
    if fa == [] {
    } else {
      var init, a := fa[..|fa| - 1], fa[|fa| - 1];
      FinalHitsAreExact(init, store);
      assert fa == init + [a];
      assert a !in init;
    }
  }

  /** All together: exactly the selected lists, each once. */
  lemma AllHits(hits: seq<Path>, fa: seq<Addr>, keys: set<Addr>, store: Store, t: Topic)
    requires t.tokens != [] && Passed(hits, store, t, |t.tokens|) && Current(fa, keys, t, |t.tokens|)
    requires forall p :: p in store ==> p.at in keys
    ensures var all := hits + FinalHits(fa, store);
      && NoDuplicates(all) && Within(all, store)
      && forall p :: p in all <==> p in store && Selects(store, p, t)
  {
    FinalHitsAreExact(fa, store);
    var all := hits + FinalHits(fa, store);
    forall p | p in store
      ensures p in all <==> Selects(store, p, t)
    {
      if Reached(p.at, t, |t.tokens|) {
        ReachedDepth(p.at, t, |t.tokens|);
      }
    }
    forall p | p in hits && p in FinalHits(fa, store)
      ensures false
    {
      ReachedDepth(p.at, t, |t.tokens|);
    }
  }

  /** What `search` knows after `n` tokens: the frontier, the "#" lists passed, their subscribers. */
  ghost predicate Walked(fa: seq<Addr>, hits: seq<Path>, tmp: seq<Entry>, keys: set<Addr>, store: Store, t: Topic,
                         n: nat)
  {
    && 0 < n <= |t.tokens|
    && Current(fa, keys, t, n) && Passed(hits, store, t, n) && tmp == Flatten(hits, store)
  }

  /** The store hangs on a tree. */
  ghost predicate OnTree(keys: set<Addr>, store: Store)
  {
    Closed(keys) && forall p :: p in store ==> p.at in keys
  }

  lemma WalkedStep(fa: seq<Addr>, hits: seq<Path>, tmp: seq<Entry>, keys: set<Addr>, store: Store, t: Topic, n: nat)
    requires OnTree(keys, store) && Walked(fa, hits, tmp, keys, store, t, n) && n < |t.tokens|
    ensures Within(PoundHits(fa, store), store)
    ensures Walked(NextAddrs(fa, keys, t.tokens[n]), hits + PoundHits(fa, store),
                   tmp + Flatten(PoundHits(fa, store), store), keys, store, t, n + 1)
  {
    CurrentAdvances(fa, keys, t, n);
    PassedAdvances(hits, fa, keys, store, t, n);
    PoundHitsAreExact(fa, store);
    FlattenConcat(hits, PoundHits(fa, store), store);
  }

  lemma WalkedEmpty(hits: seq<Path>, tmp: seq<Entry>, keys: set<Addr>, store: Store, t: Topic, n: nat)
    requires OnTree(keys, store) && Walked([], hits, tmp, keys, store, t, n)
    ensures Walked([], hits, tmp, keys, store, t, |t.tokens|)
  {
    forall a | a in keys
      ensures !Reached(a, t, n)
    {
      assert a !in [];
    }
    NothingReached(keys, t, n, |t.tokens|);
    PassedStays(hits, keys, store, t, n, |t.tokens|);
  }

  lemma WalkedAll(fa: seq<Addr>, hits: seq<Path>, tmp: seq<Entry>, keys: set<Addr>, store: Store, t: Topic)
    requires OnTree(keys, store) && Walked(fa, hits, tmp, keys, store, t, |t.tokens|)
    ensures Within(FinalHits(fa, store), store)
    ensures var all := hits + FinalHits(fa, store);
      && NoDuplicates(all) && Within(all, store)
      && (forall p :: p in all <==> p in store && Selects(store, p, t))
      && tmp + Flatten(FinalHits(fa, store), store) == Flatten(all, store)
  {
    AllHits(hits, fa, keys, store, t);
    FinalHitsAreExact(fa, store);
    FlattenConcat(hits, FinalHits(fa, store), store);
  }
}
