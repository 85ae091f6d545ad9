/** Whole runs on one trie (src/filtering.c): whatever has been subscribed and unsubscribed before,
    a search collects what a scan of the stored pairs collects. */
module TrieRuns {
  import opened Prelude
  import opened Topics
  import opened SubscriberLists
  import opened TopicStore
  import opened Scanning
  import opened TopicRuns
  import opened TrieShape
  import opened TopicTrie

  /** No unsubscription of the run meets a way without a list, whichever of two equal entries every
      sort puts first, and the keys are ones the scanner can read. */
  ghost predicate Safe(ops: seq<Op>)
  {
    && (forall i :: 0 <= i < |ops| ==> ops[i].key != "$" && (ops[i].Unsubscribe? ==> !SysPlus(ops[i].key)))
    && forall stores: seq<Store> :: 0 < |stores| <= |ops| && IsRun(ops[..|stores| - 1], stores) ==>
         SafeNext(ops, stores)
  }

  ghost predicate SafeNext(ops: seq<Op>, stores: seq<Store>)
    requires 0 < |stores| <= |ops| && ops[|stores| - 1].key != "$"
  {
    var i := |stores| - 1;
    ops[i].Unsubscribe? ==> Followable(stores[i], FilterPath(ops[i].key))
  }

  lemma NextIsSafe(ops: seq<Op>, stores: seq<Store>, i: nat)
    requires Safe(ops) && i < |ops| && IsRun(ops[..i], stores)
    ensures ops[i].key != "$" && |stores| == i + 1
    ensures ops[i].Unsubscribe? ==> !SysPlus(ops[i].key) && Followable(stores[i], FilterPath(ops[i].key))
  {
    assert |ops[..i]| == i && ops[..i] == ops[..|stores| - 1];
    assert SafeNext(ops, stores);
  }

  /** One step on the heap is one step of the flat store. */
  method Step(trie: Trie, op: Op)
    requires trie.Valid() && op.key != "$"
    requires op.Unsubscribe? ==> !SysPlus(op.key) && Followable(trie.store, FilterPath(op.key))
    modifies trie`nodes, trie`views, trie`repr, trie`store, trie.repr
    ensures trie.Valid() && fresh(trie.repr - old(trie.repr)) && Steps(old(trie.store), op, trie.store)
  {
    match op
    case Subscribe(key, maxQos, client) =>
      trie.Intercept(key, maxQos, client);
    case Unsubscribe(key, client) =>
      trie.NodesAreWays(FilterPath(key).at);
      trie.DeleteTopic(key, client);
  }

  lemma OneMore(ops: seq<Op>, stores: seq<Store>, i: nat, after: Store)
    requires i < |ops| && IsRun(ops[..i], stores) && Steps(stores[i], ops[i], after)
    ensures IsRun(ops[..i + 1], stores + [after]) && (stores + [after])[i + 1] == after
  {
    assert ops[..i + 1] == ops[..i] + [ops[i]];
  }

  /** From the empty trie through any safe run. */
  method Replay(ops: seq<Op>) returns (trie: Trie, ghost stores: seq<Store>)
    requires Safe(ops)
    ensures fresh(trie) && fresh(trie.repr) && trie.Valid()
    ensures IsRun(ops, stores) && trie.store == stores[|ops|] && Good(trie.store)
  {
    hide Shape, Good;
    trie := new Trie();
    stores := [trie.store];
    for i := 0 to |ops|
      invariant fresh(trie) && fresh(trie.repr) && trie.Valid()
      invariant IsRun(ops[..i], stores) && trie.store == stores[i]
    {
      NextIsSafe(ops, stores, i);
      Step(trie, ops[i]);
      OneMore(ops, stores, i, trie.store);
      stores := stores + [trie.store];
    }
    assert ops[..|ops|] == ops;
    RunsStayGood(ops, stores, |ops|);
  }

  /** The stores are those of the run, and the two results are what they say about the name. */
  ghost predicate Explains(ops: seq<Op>, stores: seq<Store>, name: string, collected: seq<Entry>, r: Option<seq<Entry>>)
    requires name != "$"
  {
    && IsRun(ops, stores) && Good(stores[|ops|])
    && Gathered(collected, stores[|ops|], TopicOf(name)) && Answers(r, stores[|ops|], TopicOf(name))
  }

  lemma AnswerFromCollected(collected: seq<Entry>, r: Option<seq<Entry>>, store: Store, t: Topic)
    requires Gathered(collected, store, t) && Answers(r, store, t)
    ensures r.Some? <==> |collected| <= |Clients(collected)| + 1
    ensures r.Some? ==> Strict(r.value) && Clients(r.value) == Clients(collected)
    ensures r.Some? ==> forall e :: e in r.value ==> e in collected
  {
    var all := EnumerationExists(store);
    var scan := Scan(all, store, t);
    SameElementsSameClients(collected, scan);
    assert |multiset(collected)| == |multiset(scan)|;
    if r.Some? {
      forall e | e in r.value
        ensures e in collected
      {
        assert e in multiset(scan) && e in multiset(collected);
      }
    }
  }

  /** After any safe run and for every name but "$", `search` collects before its deduplication
      exactly what a scan of the stored pairs collects; it answers exactly if that is at most one entry
      more than distinct clients, and then with one of the entries collected for each client. */
  method SearchAfter(ops: seq<Op>, name: string) returns (collected: seq<Entry>, r: Option<seq<Entry>>)
    requires Safe(ops) && name != "$"
    ensures exists stores :: Explains(ops, stores, name, collected, r)
    ensures r.Some? <==> |collected| <= |Clients(collected)| + 1
    ensures r.Some? ==> Strict(r.value) && Clients(r.value) == Clients(collected)
    ensures r.Some? ==> forall e :: e in r.value ==> e in collected
  {
    var trie;
    ghost var stores;
    trie, stores := Replay(ops);
    collected := trie.Collect(name);
    r := trie.Search(name);
    assert Explains(ops, stores, name, collected, r);
    AnswerFromCollected(collected, r, trie.store, TopicOf(name));
  }
}
