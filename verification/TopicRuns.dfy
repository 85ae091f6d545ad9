/** Whole runs of `intercept` and `delete_topic` from the empty trie. The steps are the contracts of
    `Trie.Intercept` and `Trie.DeleteTopic`. */
module TopicRuns {
  import opened Prelude
  import opened Topics
  import opened SubscriberLists
  import opened TopicStore
  import opened Scanning

  datatype Op = Subscribe(key: string, maxQos: int, client: string) | Unsubscribe(key: string, client: string)

  ghost predicate Steps(before: Store, op: Op, after: Store)
  {
    op.key != "$" &&
    var p := FilterPath(op.key);
    match op
    case Subscribe(_, q, c) =>
      p in after && after == before[p := after[p]] && Added(Or(Get(before, p)), after[p], Entry(q, c))
    case Unsubscribe(_, c) =>
      !SysPlus(op.key) && after == Deleted(before, p, c)
  }

  ghost predicate IsRun(ops: seq<Op>, stores: seq<Store>)
  {
    && |stores| == |ops| + 1 && stores[0] == map[]
    && forall i :: 0 <= i < |ops| ==> Steps(stores[i], ops[i], stores[i + 1])
  }

  /** Every list is strictly sorted by client id, so it holds a client at most once; every list is
      one that a filter denotes; and there is no dead branch: every list hangs on a node at which or
      below which somebody is subscribed. */
  ghost predicate Good(store: Store)
  {
    && (forall p :: p in store ==> Strict(store[p]) && ValidPath(p))
    && (forall p :: p in store ==> Kept(store, p))
  }

  lemma LiveMonotone(store: Store, a: Addr, p: Path, l: seq<Entry>)
    requires Live(store, a) && l != []
    ensures Live(store[p := l], a)
  {
    var q :| q in store && store[q] != [] && Extends(q.at, a);
    assert q in store[p := l] && store[p := l][q] != [];
  }

  lemma SubscribeKeepsGood(before: Store, op: Op, after: Store)
    requires Good(before) && op.Subscribe? && Steps(before, op, after)
    ensures Good(after)
  {
    var p := FilterPath(op.key);
    FilterPathIsValid(op.key);
    forall q | q in after
      ensures Strict(after[q]) && ValidPath(q) && Kept(after, q)
    {
      if q == p {
        assert Extends(p.at, p.at);
        assert after[p] != [] && Live(after, p.at);
      } else if q.at.Child? {
        LiveMonotone(before, q.at, p, after[p]);
      }
    }
  }

  lemma UnsubscribeKeepsGood(before: Store, op: Op, after: Store)
    requires Good(before) && op.Unsubscribe? && Steps(before, op, after)
    ensures Good(after)
  {
    var p := FilterPath(op.key);
    if p in before {
      var l := RemoveAtMiddle(before[p], op.client);
      var updated := before[p := l];
      RemovalIsExact(before[p], op.client);
      PrunedKeepsSubscribers(updated);
      forall q | q in after
        ensures Kept(after, q)
      {
        if q.at.Child? {
          var r :| r in updated && updated[r] != [] && Extends(r.at, q.at);
          assert r in after && after[r] != [];
        }
      }
    }
  }

  /** The invariant over every run. */
  lemma {:induction false} RunsStayGood(ops: seq<Op>, stores: seq<Store>, n: nat)
    requires IsRun(ops, stores) && n <= |ops|
    ensures Good(stores[n])
  {
    if n == 0 {
    } else {
      RunsStayGood(ops, stores, n - 1);
      if ops[n - 1].Subscribe? {
        SubscribeKeepsGood(stores[n - 1], ops[n - 1], stores[n]);
      } else {
        UnsubscribeKeepsGood(stores[n - 1], ops[n - 1], stores[n]);
      }
    }
  }

  /** What one step does to the stored (filter, client) pairs: a subscription adds its pair and no
      other; an unsubscription takes away no pair but its own, and its own exactly when the client
      stands in the middle slot of the list. */
  lemma StepOnPairs(before: Store, op: Op, after: Store, q: Path, c: string)
    requires Good(before) && Steps(before, op, after)
    ensures var p := FilterPath(op.key);
      if op.Subscribe? then
        Subscribed(after, q, c) <==> Subscribed(before, q, c) || (q == p && c == op.client)
      else
        Subscribed(after, q, c) <==>
          Subscribed(before, q, c) && !(q == p && c == op.client && before[p][|before[p]| / 2].client == c)
  {
    var p := FilterPath(op.key);
    if op.Unsubscribe? && p in before {
      DeletionIsLocal(before, p, op.client, q, c);
    }
  }

  /** A subscription grants the QoS asked for, unless the client had one for the same list before, and
      changes no entry of anybody else. */
  lemma SubscriptionGrantsQos(before: Store, op: Op, after: Store, x: Entry)
    requires Good(before) && op.Subscribe? && Steps(before, op, after)
    ensures var p := FilterPath(op.key);
      && p in after
      && (!Subscribed(before, p, op.client) ==>
            (x in after[p] && x.client == op.client <==> x == Entry(op.maxQos, op.client)))
      && (x.client != op.client ==> (x in after[p] <==> p in before && x in before[p]))
      && forall q :: q != p ==> Get(after, q) == Get(before, q)
  {
    var p := FilterPath(op.key);
    assert Clients([]) == {};
    AddedIsExact(Or(Get(before, p)), after[p], Entry(op.maxQos, op.client), x);
  }

  // ---------- two unsubscriptions the program does not survive ----------

  lemma FilterPathsOfLetters()
    ensures FilterPath("a") == Exact(Child(Root, Lit("a")))
    ensures FilterPath("a/b") == Exact(Child(Child(Root, Lit("a")), Lit("b")))
    ensures FilterPath("$+/b") == Exact(Child(Child(Sys, Lit("+")), Lit("b")))
    ensures HeadOf("$+/b") == Head(true, "+", "/b")
  {
    LevelOfPrefix("a", "");
    LevelOfPrefix("a", "/b");
    LevelOfPrefix("b", "");
    LevelOfPrefix("+", "/b");
    assert "a" + "" == "a" && "b" + "" == "b" && "a" + "/b" == "a/b" && "$+/b"[1..] == "+/b" == "+" + "/b";
    assert "a/b"[1..] == "/b" && "/b"[1..] == "b" && "a"[1..] == "" && "b"[1..] == "" && "$+/b"[2..] == "/b";
    assert Tokens("b") == ["b"] + Tokens("") && Tokens("/b") == [] + Tokens("b");
    StepOfWalk(Child(Root, Lit("a")), "b", []);
    StepOfWalk(Child(Sys, Lit("+")), "b", []);
    assert ["b"] + [] == ["b"];
  }

  /** After a subscription to "a/b" an unsubscription from "a" gets to a node without a list, which
      `delete_client_id` dereferences. */
  lemma UnsubscribeAboveFaults(maxQos: int, client: string, after: Store)
    requires Steps(map[], Subscribe("a/b", maxQos, client), after)
    ensures !Followable(after, FilterPath("a"))
  {
    FilterPathsOfLetters();
    var p := FilterPath("a/b");
    assert Extends(p.at.parent, p.at.parent) && Extends(p.at, p.at.parent);
    assert p in after && after[p] != [];
  }

  /** The first level of "$+/b" stands among the children of `sys`, under a key for which DELETE looks
      at `plus_children`. */
  lemma SysPlusIsAnOrdinaryChild()
    ensures SysPlus("$+/b") && FilterPath("$+/b").at.parent == Child(Sys, Lit("+")) && EdgeOf("+") == Plus
  {
    FilterPathsOfLetters();
  }
}
