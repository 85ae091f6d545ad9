/** The simple thing the trie speeds up: a flat collection of subscriber lists, each kept under
    the place its filter denotes, searched by looking at every one of them. */
module TopicStore {
  import opened Prelude
  import opened Topics
  import opened SubscriberLists

  type Store = map<Path, seq<Entry>>

  function Get(store: Store, p: Path): Option<seq<Entry>>
  {
    if p in store then Some(store[p]) else None
  }

  // ---------- which lists a topic name selects ----------

  /** The address matches the first `n` tokens of the name. Names that start with "$" live below
      `sys`, but the "+" of the root is consulted for them too. */
  predicate Reached(a: Addr, t: Topic, n: nat)
  {
    && a.Child? && 0 < n <= |t.tokens|
    && if n == 1 then
         (a.parent == Base(t.sys) && a.last == Lit(t.tokens[0])) || a == Child(Root, Plus)
       else
         Reached(a.parent, t, n - 1) && (a.last == Plus || a.last == Lit(t.tokens[n - 1]))
  }

  function Depth(a: Addr): nat
  {
    if a.Child? then Depth(a.parent) + 1 else 0
  }

  /** The lists `search` reads for a name. A "#" list right at the final level counts only when
      that level has no list of its own (src/filtering.c:350-354). */
  predicate Selects(store: Store, p: Path, t: Topic)
  {
    match p
    case Exact(a) => Reached(a, t, |t.tokens|)
    case Pound(a) =>
      if a.Child? then Reached(a, t, Depth(a)) && (Depth(a) < |t.tokens| || Exact(a) !in store)
      else a == Root && !t.sys
  }

  ghost predicate Within(hits: seq<Path>, store: Store)
  {
    forall i :: 0 <= i < |hits| ==> hits[i] in store
  }

  function Flatten(hits: seq<Path>, store: Store): seq<Entry>
    requires Within(hits, store)
  {
    if hits == [] then []
    else Flatten(hits[..|hits| - 1], store) + store[hits[|hits| - 1]]
  }

  lemma FlattenSnoc(hits: seq<Path>, p: Path, store: Store)
    requires Within(hits, store) && p in store
    ensures Within(hits + [p], store)
    ensures Flatten(hits + [p], store) == Flatten(hits, store) + store[p]
  {
    assert (hits + [p])[..|hits|] == hits;
  }

  lemma {:induction false} FlattenConcat(a: seq<Path>, b: seq<Path>, store: Store)
    requires Within(a, store) && Within(b, store)
    ensures Within(a + b, store)
    ensures Flatten(a + b, store) == Flatten(a, store) + Flatten(b, store)
  {
    if b == [] {
      assert a + b == a;
    } else {
      var init, last := b[..|b| - 1], b[|b| - 1];
      FlattenConcat(a, init, store);
      FlattenSnoc(a + init, last, store);
      assert a + b == (a + init) + [last];
      assert Flatten(a, store) + (Flatten(init, store) + store[last])
          == Flatten(a, store) + Flatten(init, store) + store[last];
    }
  }

  lemma {:induction false} InFlatten(e: Entry, hits: seq<Path>, store: Store)
    requires Within(hits, store)
    ensures e in Flatten(hits, store) <==> exists i :: 0 <= i < |hits| && e in store[hits[i]]
  {
    if hits == [] {
    } else {
      InFlatten(e, hits[..|hits| - 1], store);
    }
  }

  // ---------- the flat scan ----------

  /** Scan a list of stored places from front to back and collect the subscribers of those that match. */
  function Scan(all: seq<Path>, store: Store, t: Topic): seq<Entry>
    requires Within(all, store)
  {
    if all == [] then []
    else
      var last := all[|all| - 1];
      Scan(all[..|all| - 1], store, t) + (if Selects(store, last, t) then store[last] else [])
  }

  function Matching(all: seq<Path>, store: Store, t: Topic): seq<Path>
  {
    if all == [] then []
    else
      var last := all[|all| - 1];
      Matching(all[..|all| - 1], store, t) + (if Selects(store, last, t) then [last] else [])
  }

  lemma {:induction false} MatchingIsExact(all: seq<Path>, store: Store, t: Topic)
    ensures forall p :: p in Matching(all, store, t) <==> p in all && Selects(store, p, t)
    ensures NoDuplicates(all) ==> NoDuplicates(Matching(all, store, t))
  {
    if all == [] {
    } else {
      var init, last := all[..|all| - 1], all[|all| - 1];
      MatchingIsExact(init, store, t);
      assert all == init + [last];
    }
  }

  lemma {:induction false} ScanIsFlatten(all: seq<Path>, store: Store, t: Topic)
    requires Within(all, store)
    ensures Within(Matching(all, store, t), store)
    ensures Scan(all, store, t) == Flatten(Matching(all, store, t), store)
  {
    if all == [] {
    } else {
      var init, last := all[..|all| - 1], all[|all| - 1];
      ScanIsFlatten(init, store, t);
      var m := Matching(init, store, t);
      if Selects(store, last, t) {
        FlattenSnoc(m, last, store);
      } else {
        assert m + [] == m;
        assert Scan(init, store, t) + [] == Scan(init, store, t);
      }
    }
  }

  lemma MultisetMiddle(a: seq<Entry>, b: seq<Entry>, c: seq<Entry>)
    ensures multiset(a + b + c) == multiset(a + c) + multiset(b)
  {
  }

  lemma FlattenRemove(b: seq<Path>, k: nat, store: Store)
    requires k < |b| && Within(b, store)
    ensures Within(b[..k] + b[k + 1..], store)
    ensures multiset(Flatten(b, store)) == multiset(Flatten(b[..k] + b[k + 1..], store)) + multiset(store[b[k]])
  {
    FlattenConcat(b[..k], b[k + 1..], store);
    FlattenSnoc(b[..k], b[k], store);
    FlattenConcat(b[..k] + [b[k]], b[k + 1..], store);
    assert b == (b[..k] + [b[k]]) + b[k + 1..];
    MultisetMiddle(Flatten(b[..k], store), store[b[k]], Flatten(b[k + 1..], store));
  }

  ghost predicate SameElements(a: seq<Path>, b: seq<Path>)
  {
    forall p :: p in a <==> p in b
  }

  lemma SameElementsMinusOne(a: seq<Path>, b: seq<Path>, k: nat)
    requires NoDuplicates(a) && NoDuplicates(b) && a != [] && k < |b| && b[k] == a[|a| - 1]
    requires SameElements(a, b)
    ensures NoDuplicates(b[..k] + b[k + 1..])
    ensures SameElements(a[..|a| - 1], b[..k] + b[k + 1..])
  {
    var init, b' := a[..|a| - 1], b[..k] + b[k + 1..];
    assert a == init + [b[k]];
    forall p | p in init ensures p in b' {
      assert p in a && p != b[k];
      var j :| 0 <= j < |b| && b[j] == p;
      assert b'[if j < k then j else j - 1] == p;
    }
    forall p | p in b' ensures p in init {
      var j :| 0 <= j < |b'| && b'[j] == p;
      var i := if j < k then j else j + 1;
      assert p == b[i] && i != k;
      assert p != b[k] && p in a;
    }
  }

  lemma FirstIsIn(b: seq<Path>)
    requires b != []
    ensures b[0] in b
  {
  }

  lemma {:induction false} FlattenIgnoresOrder(a: seq<Path>, b: seq<Path>, store: Store)
    requires Within(a, store) && Within(b, store)
    requires NoDuplicates(a) && NoDuplicates(b) && SameElements(a, b)
    ensures multiset(Flatten(a, store)) == multiset(Flatten(b, store))
    decreases |a|
  {
    if a == [] {
      if b != [] {
        FirstIsIn(b);
        assert false;
      }
    } else {
      assert a[|a| - 1] in b;
      var k :| 0 <= k < |b| && b[k] == a[|a| - 1];
      SameElementsMinusOne(a, b, k);
      FlattenRemove(b, k, store);
      FlattenIgnoresOrder(a[..|a| - 1], b[..k] + b[k + 1..], store);
    }
  }

  /** Any duplicate-free visit of exactly the selected lists collects what the flat scan collects,
      each subscriber as often. */
  lemma VisitIsScan(hits: seq<Path>, all: seq<Path>, store: Store, t: Topic)
    requires NoDuplicates(hits) && (forall p :: p in hits <==> p in store && Selects(store, p, t))
    requires NoDuplicates(all) && (forall p :: p in all <==> p in store)
    ensures multiset(Flatten(hits, store)) == multiset(Scan(all, store, t))
  {
    ScanIsFlatten(all, store, t);
    MatchingIsExact(all, store, t);
    FlattenIgnoresOrder(hits, Matching(all, store, t), store);
  }

  ghost predicate Enumerates(all: seq<Path>, store: Store)
  {
    NoDuplicates(all) && Within(all, store) && forall p :: p in store ==> p in all
  }

  /** What a flat scan collects, in whatever order the lists are scanned. */
  ghost predicate Gathered(tmp: seq<Entry>, store: Store, t: Topic)
  {
    forall all {:trigger Scan(all, store, t)} :: Enumerates(all, store) ==>
      multiset(tmp) == multiset(Scan(all, store, t))
  }

  lemma VisitGathers(hits: seq<Path>, store: Store, t: Topic)
    requires NoDuplicates(hits) && Within(hits, store)
    requires forall p :: p in hits <==> p in store && Selects(store, p, t)
    ensures Gathered(Flatten(hits, store), store, t)
  {
    forall all | Enumerates(all, store)
      ensures multiset(Flatten(hits, store)) == multiset(Scan(all, store, t))
    {
      VisitIsScan(hits, all, store, t);
    }
  }

  lemma ScanGathers(all: seq<Path>, store: Store, t: Topic)
    requires Enumerates(all, store)
    ensures Gathered(Scan(all, store, t), store, t)
  {
    ScanIsFlatten(all, store, t);
    MatchingIsExact(all, store, t);
    VisitGathers(Matching(all, store, t), store, t);
  }

  /** The answer to a search, in terms of a flat scan in any order: there is one exactly if the scan
      collects at most one entry more than distinct clients, and then it lists each of these clients
      once, with an entry that was collected. */
  ghost predicate Answers(r: Option<seq<Entry>>, store: Store, t: Topic)
  {
    forall all {:trigger Scan(all, store, t)} :: Enumerates(all, store) ==>
      var scan := Scan(all, store, t);
      && (r.Some? <==> |scan| <= |Clients(scan)| + 1)
      && (r.Some? ==> Strict(r.value) && Clients(r.value) == Clients(scan) && forall e :: e in r.value ==> e in scan)
  }

  lemma DeduplicatedAnswers(tmp: seq<Entry>, r: Option<seq<Entry>>, store: Store, t: Topic)
    requires Gathered(tmp, store, t) && (r.Some? <==> |tmp| <= |Clients(tmp)| + 1)
    requires r.Some? ==> Strict(r.value) && Clients(r.value) == Clients(tmp) && multiset(r.value) <= multiset(tmp)
    ensures Answers(r, store, t)
  {
    forall all | Enumerates(all, store)
      ensures var scan := Scan(all, store, t);
        && (r.Some? <==> |scan| <= |Clients(scan)| + 1)
        && (r.Some? ==> Strict(r.value) && Clients(r.value) == Clients(scan) && forall e :: e in r.value ==> e in scan)
    {
      var scan := Scan(all, store, t);
      SameElementsSameClients(tmp, scan);
      assert |multiset(tmp)| == |multiset(scan)|;
      if r.Some? {
        forall e | e in r.value
          ensures e in scan
        {
          assert e in multiset(r.value) && e in multiset(scan);
        }
      }
    }
  }

  /** Every client with a subscription that the topic name selects is in the answer once, and nobody
      else is. */
  lemma EachMatchIsListedOnce(store: Store, t: Topic, list: seq<Entry>, c: string)
    requires Answers(Some(list), store, t)
    ensures c in Clients(list) <==> exists p :: Subscribed(store, p, c) && Selects(store, p, t)
    ensures forall i, j :: 0 <= i < j < |list| ==> list[i].client != list[j].client
  {
    var all := EnumerationExists(store);
    var scan := Scan(all, store, t);
    ScanGathers(all, store, t);
    forall i, j | 0 <= i < j < |list|
      ensures list[i].client != list[j].client
    {
      LessAsymmetric(list[i].client, list[j].client);
    }
    if c in Clients(scan) {
      var i :| 0 <= i < |scan| && scan[i].client == c;
      GatheredMeansSelected(scan, store, t, scan[i]);
    }
    if p :| Subscribed(store, p, c) && Selects(store, p, t) {
      var i :| 0 <= i < |store[p]| && store[p][i].client == c;
      GatheredMeansSelected(scan, store, t, store[p][i]);
      var j :| 0 <= j < |scan| && scan[j] == store[p][i];
    }
  }

  lemma {:induction false} EnumerationExists(store: Store) returns (all: seq<Path>)
    ensures Enumerates(all, store)
    decreases |store|
  {
    if store == map[] {
      all := [];
    } else {
      var p :| p in store;
      var rest := store - {p};
      all := EnumerationExists(rest);
      assert p !in all;
      all := all + [p];
      assert forall q :: q in store ==> q == p || q in rest;
    }
  }

  /** An entry is gathered exactly when it stands in a list the name selects. */
  lemma GatheredMeansSelected(tmp: seq<Entry>, store: Store, t: Topic, e: Entry)
    requires Gathered(tmp, store, t)
    ensures e in tmp <==> exists p :: p in store && Selects(store, p, t) && e in store[p]
  {
    var all := EnumerationExists(store);
    var scan := Scan(all, store, t);
    var m := Matching(all, store, t);
    assert e in tmp <==> e in multiset(tmp);
    assert e in scan <==> e in multiset(scan);
    ScanIsFlatten(all, store, t);
    MatchingIsExact(all, store, t);
    InFlatten(e, m, store);
    if p :| p in store && Selects(store, p, t) && e in store[p] {
      assert p in m;
      var i :| 0 <= i < |m| && m[i] == p;
    }
    if i :| 0 <= i < |m| && e in store[m[i]] {
      assert m[i] in m;
    }
  }

  // ---------- removing a subscriber and pruning ----------

  ghost predicate Extends(a: Addr, prefix: Addr)
  {
    a == prefix || (a.Child? && Extends(a.parent, prefix))
  }

  lemma {:induction false} WalkExtends(a: Addr, ts: seq<string>)
    ensures Extends(Walk(a, ts).at, a)
    decreases |ts|
  {
    if ts != [] && ts[0] != "#" {
      var c := Child(a, EdgeOf(ts[0]));
      WalkExtends(c, ts[1..]);
      ExtendsTransitive(Walk(c, ts[1..]).at, c, a);
    }
  }

  lemma {:induction false} ExtendsTransitive(x: Addr, y: Addr, z: Addr)
    requires Extends(x, y) && Extends(y, z)
    ensures Extends(x, z)
  {
    if x != y {
      ExtendsTransitive(x.parent, y, z);
    }
  }

  /** Somebody is subscribed at the node or below it. */
  ghost predicate Live(store: Store, a: Addr)
  {
    exists p :: p in store && store[p] != [] && Extends(p.at, a)
  }

  ghost predicate Kept(store: Store, p: Path)
  {
    !p.at.Child? || Live(store, p.at)
  }

  /** Drop every list at whose node nobody is subscribed any more, nor below it. */
  ghost function Pruned(store: Store): Store
  {
    map p | p in store && Kept(store, p) :: store[p]
  }

  /** The store after `delete_topic`. */
  ghost function Deleted(store: Store, p: Path, client: string): Store
  {
    if p in store then Pruned(store[p := RemoveAtMiddle(store[p], client)]) else store
  }

  /** Where `delete_topic` may be sent: the C code dereferences the list at the end of a way that
      exists. A way exists if it is a root or somebody is subscribed on it or below it. */
  ghost predicate Followable(store: Store, p: Path)
  {
    p in store || (p.at.Child? && !Live(store, p.at))
  }

  lemma PrunedKeepsSubscribers(store: Store)
    ensures forall p :: p in Pruned(store) ==> p in store && Pruned(store)[p] == store[p]
    ensures forall p :: p in store && store[p] != [] ==> p in Pruned(store)
  {
    forall p | p in store && store[p] != []
      ensures p in Pruned(store)
    {
      assert Extends(p.at, p.at);
      assert Live(store, p.at);
    }
  }

  lemma PruningKeepsSelection(store: Store, p: Path, t: Topic)
    requires p in store && store[p] != []
    ensures Selects(Pruned(store), p, t) <==> Selects(store, p, t)
  {
    PrunedKeepsSubscribers(store);
    if p.Pound? && Exact(p.at) in store && p.at.Child? {
      assert Extends(p.at, p.at);
      assert Live(store, p.at);
      assert Exact(p.at) in Pruned(store);
    }
  }

  ghost predicate Subscribed(store: Store, p: Path, client: string)
  {
    p in store && client in Clients(store[p])
  }

  /** `delete_topic` on a stored pair changes no pair other than the one named, and that one is
      gone unless the reversed binary search missed it. */
  lemma DeletionIsLocal(store: Store, p: Path, client: string, q: Path, c: string)
    requires p in store && Strict(store[p])
    ensures var after := Deleted(store, p, client);
      && (q != p || c != client ==> (Subscribed(after, q, c) <==> Subscribed(store, q, c)))
      && (Subscribed(after, p, client) <==>
            Subscribed(store, p, client) && store[p][|store[p]| / 2].client != client)
  {
    var updated := store[p := RemoveAtMiddle(store[p], client)];
    PrunedKeepsSubscribers(updated);
    RemovalIsExact(store[p], client);
    assert forall q, c :: Subscribed(Pruned(updated), q, c) <==> Subscribed(updated, q, c) by {
      forall q, c
        ensures Subscribed(Pruned(updated), q, c) <==> Subscribed(updated, q, c)
      {
        if q in updated && updated[q] == [] {
          assert Clients(updated[q]) == {};
        }
      }
    }
    if q == p && c != client {
      var l, r := store[p], RemoveAtMiddle(store[p], client);
      if c in Clients(l) {
        var i :| 0 <= i < |l| && l[i].client == c;
        assert l[i] in r;
      }
      if c in Clients(r) {
        var i :| 0 <= i < |r| && r[i].client == c;
        assert r[i] in l;
      }
    }
  }

  /** No other list gains or loses a reader of a name. */
  lemma DeletionKeepsOtherMatches(store: Store, p: Path, client: string, q: Path, t: Topic)
    requires p in store && q in store && q != p && store[q] != []
    ensures var after := Deleted(store, p, client);
      q in after && after[q] == store[q] && (Selects(after, q, t) <==> Selects(store, q, t))
  {
    var updated := store[p := RemoveAtMiddle(store[p], client)];
    PrunedKeepsSubscribers(updated);
    PruningKeepsSelection(updated, q, t);
  }
}
