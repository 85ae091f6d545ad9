/** The broker as far as subscriptions go, as a state machine: the store of all subscriptions and
    the filter list of every live session (src/session.c, src/event.c). */
module BrokerRuns {
  import opened Prelude
  import opened Topics
  import opened SubscriberLists
  import opened TopicStore
  import opened Scanning
  import opened TopicRuns
  import opened Sessions

  datatype SessionState = SessionState(sock: int, clean: bool, topics: seq<string>)

  datatype State = State(store: Store, sessions: map<string, SessionState>)

  datatype Event =
    | Connected(client: string, sock: int, clean: bool)
    | SubscribedTo(client: string, filter: string, maxQos: int)
    | UnsubscribedFrom(client: string, filter: string)
    | Closed(client: string)

  /** Filters that `delete_topic` can be called with. */
  predicate Erasable(filter: string)
  {
    filter != "$" && !SysPlus(filter)
  }

  /** Unsubscribe one client from a list of filters, one after the other. */
  ghost function DeletedAll(store: Store, filters: seq<string>, client: string): Store
    requires forall f :: f in filters ==> Erasable(f)
  {
    if filters == [] then store
    else
      var init, last := filters[..|filters| - 1], filters[|filters| - 1];
      assert last in filters && Erasable(last);
      Deleted(DeletedAll(store, init, client), FilterPath(last), client)
  }

  /** Deleting takes away no list on a way that stays. */
  lemma StaysFollowable(store: Store, p: Path, client: string, q: Path)
    requires Followable(store, q)
    ensures Followable(Deleted(store, p, client), q)
  {
    if p in store {
      var updated := store[p := RemoveAtMiddle(store[p], client)];
      PrunedKeepsSubscribers(updated);
      if q.at.Child? && Live(Pruned(updated), q.at) {
        var r :| r in Pruned(updated) && Pruned(updated)[r] != [] && Extends(r.at, q.at);
        assert r in updated && updated[r] != [];
        assert r in store && store[r] != [];
        assert Live(store, q.at) && Live(updated, q.at);
      }
    }
  }

  /** What an event needs: live client ids and sockets are distinct, only a live session subscribes,
      unsubscribes or closes, and what is to be deleted can be. */
  ghost predicate CanHappen(st: State, e: Event)
  {
    match e
    case Connected(c, sock, _) => c !in st.sessions && forall d :: d in st.sessions ==> st.sessions[d].sock != sock
    case SubscribedTo(c, f, _) => c in st.sessions && f != "$"
    case UnsubscribedFrom(c, f) => c in st.sessions && Erasable(f)
    case Closed(c) =>
      c in st.sessions && (st.sessions[c].clean ==> forall f :: f in st.sessions[c].topics ==> Erasable(f))
  }

  ghost predicate Step(before: State, e: Event, after: State)
  {
    && CanHappen(before, e)
    && match e
       case Connected(c, sock, clean) =>
         after == State(before.store, before.sessions[c := SessionState(sock, clean, [])])
       case SubscribedTo(c, f, q) =>
         && c in after.sessions && Ascending(after.sessions[c].topics)
         && after.sessions == before.sessions[c := before.sessions[c].(topics := after.sessions[c].topics)]
         && (forall x :: x in after.sessions[c].topics <==> x in before.sessions[c].topics || x == f)
         && Steps(before.store, Subscribe(f, q, c), after.store)
       case UnsubscribedFrom(c, f) =>
         && c in after.sessions && Ascending(after.sessions[c].topics)
         && after.sessions == before.sessions[c := before.sessions[c].(topics := after.sessions[c].topics)]
         && (forall x :: x in after.sessions[c].topics <==> x in before.sessions[c].topics && x != f)
         && Steps(before.store, Unsubscribe(f, c), after.store)
       case Closed(c) =>
         && after.sessions == before.sessions - {c}
         && after.store == if before.sessions[c].clean
                           then DeletedAll(before.store, before.sessions[c].topics, c) else before.store
  }

  /** The store has no dead branch, the filter lists are sorted, the sockets distinct. */
  ghost predicate Orderly(st: State)
  {
    && Good(st.store)
    && (forall c :: c in st.sessions ==> Ascending(st.sessions[c].topics))
    && (forall c, f :: c in st.sessions && f in st.sessions[c].topics ==> f != "$")
    && (forall c, d :: c in st.sessions && d in st.sessions && st.sessions[c].sock == st.sessions[d].sock ==> c == d)
  }

  /** The filter is stored under the client id. */
  ghost predicate InTrie(store: Store, filter: string, client: string)
  {
    filter != "$" && Subscribed(store, FilterPath(filter), client)
  }

  /** Every filter in a live session's list is stored in the trie under its client id. */
  ghost predicate Agree(st: State)
  {
    forall c, f :: c in st.sessions && f in st.sessions[c].topics ==> InTrie(st.store, f, c)
  }

  // ---------- one step ----------

  lemma {:induction false} DeletedAllIsGood(store: Store, filters: seq<string>, client: string)
    requires Good(store) && forall f :: f in filters ==> Erasable(f)
    ensures Good(DeletedAll(store, filters, client))
  {
    if filters == [] {
    } else {
      var init, last := filters[..|filters| - 1], filters[|filters| - 1];
      assert last in filters;
      DeletedAllIsGood(store, init, client);
      var mid := DeletedAll(store, init, client);
      UnsubscribeKeepsGood(mid, Unsubscribe(last, client), Deleted(mid, FilterPath(last), client));
    }
  }

  lemma StepKeepsOrder(before: State, e: Event, after: State)
    requires Orderly(before) && Step(before, e, after)
    ensures Orderly(after)
  {
    hide Good, Subscribed;
    match e
    case Connected(_, _, _) =>
    case SubscribedTo(c, f, q) =>
      SubscribeKeepsGood(before.store, Subscribe(f, q, c), after.store);
    case UnsubscribedFrom(c, f) =>
      UnsubscribeKeepsGood(before.store, Unsubscribe(f, c), after.store);
    case Closed(c) =>
      if before.sessions[c].clean {
        DeletedAllIsGood(before.store, before.sessions[c].topics, c);
      }
  }

  lemma SubscribeKeepsAgreement(before: State, e: Event, after: State)
    requires Orderly(before) && Agree(before) && Step(before, e, after) && e.SubscribedTo?
    ensures Agree(after)
  {
    forall c, f | c in after.sessions && f in after.sessions[c].topics
      ensures InTrie(after.store, f, c)
    {
      assert f != e.filter || c != e.client ==> InTrie(before.store, f, c);
      StepOnPairs(before.store, Subscribe(e.filter, e.maxQos, e.client), after.store, FilterPath(f), c);
    }
  }

  /** The client's entry is the one that deletion finds. */
  predicate Middle(store: Store, p: Path, client: string)
  {
    p in store && store[p] != [] && store[p][|store[p]| / 2].client == client
  }

  /** One of the filters denotes the list. */
  ghost predicate Denoted(filters: seq<string>, p: Path)
  {
    exists f :: f in filters && f != "$" && FilterPath(f) == p
  }

  /** An unsubscription deletes the list entry of another filter of the client: both denote one list,
      and the entry is the middle one. */
  ghost predicate Clashes(st: State, e: Event)
  {
    e.UnsubscribedFrom? && e.client in st.sessions && e.filter != "$" &&
    var p := FilterPath(e.filter);
    && (exists g :: g in st.sessions[e.client].topics && g != "$" && g != e.filter && FilterPath(g) == p)
    && Middle(st.store, p, e.client)
  }

  lemma StoredAfterUnsubscribing(before: State, e: Event, after: State, c: string, f: string)
    requires Orderly(before) && Agree(before) && Step(before, e, after) && e.UnsubscribedFrom?
    requires c in after.sessions && f in after.sessions[c].topics
    ensures InTrie(after.store, f, c) <==>
      !(c == e.client && FilterPath(f) == FilterPath(e.filter) && Clashes(before, e))
  {
    assert InTrie(before.store, f, c);
    StepOnPairs(before.store, Unsubscribe(e.filter, e.client), after.store, FilterPath(f), c);
  }

  lemma UnsubscribeKeepsAgreement(before: State, e: Event, after: State)
    requires Orderly(before) && Agree(before) && Step(before, e, after) && e.UnsubscribedFrom?
    ensures Agree(after) <==> !Clashes(before, e)
  {
    hide InTrie, Orderly;
    forall c, f | c in after.sessions && f in after.sessions[c].topics
      ensures f != "$"
      ensures InTrie(after.store, f, c) <==>
        !(c == e.client && FilterPath(f) == FilterPath(e.filter) && Clashes(before, e))
    {
      ListedIsReadable(before, c, f);
      StoredAfterUnsubscribing(before, e, after, c, f);
    }
    if Clashes(before, e) {
      var g :| g in before.sessions[e.client].topics && g != "$" && g != e.filter
            && FilterPath(g) == FilterPath(e.filter);
      assert g in after.sessions[e.client].topics && !InTrie(after.store, g, e.client);
    }
  }

  lemma ListedIsReadable(st: State, c: string, f: string)
    requires Orderly(st) && c in st.sessions && f in st.sessions[c].topics
    ensures f != "$"
  {
  }

  /** One more filter of a closing session. */
  lemma DeletedOnce(store: Store, f: string, client: string, q: Path, c: string)
    requires Good(store) && Erasable(f)
    ensures var p, after := FilterPath(f), Deleted(store, FilterPath(f), client);
      && (Subscribed(after, q, c) <==> Subscribed(store, q, c) && !(q == p && c == client && Middle(store, q, c)))
      && (q in store && store[q] != [] && !(q == p && Middle(store, q, client)) ==>
            q in after && after[q] == store[q])
  {
    var p, after := FilterPath(f), Deleted(store, FilterPath(f), client);
    StepOnPairs(store, Unsubscribe(f, client), after, q, c);
    if p in store && q in store && store[q] != [] {
      PrunedKeepsSubscribers(store[p := RemoveAtMiddle(store[p], client)]);
    }
  }

  /** What deleting a session's filters leaves of the stored pairs: all pairs of other clients, all
      pairs of other filters, and of its own exactly those whose entry was not in the middle of its
      list when the deletion began. */
  lemma {:induction false} DeletedAllIsExact(store: Store, filters: seq<string>, client: string, q: Path, c: string)
    requires Good(store) && forall f :: f in filters ==> Erasable(f)
    ensures Subscribed(DeletedAll(store, filters, client), q, c) <==>
      Subscribed(store, q, c) && !(c == client && Denoted(filters, q) && Middle(store, q, client))
    ensures q in store && store[q] != [] && !(Denoted(filters, q) && Middle(store, q, client)) ==>
      q in DeletedAll(store, filters, client) && DeletedAll(store, filters, client)[q] == store[q]
    decreases |filters|
  {
    if filters == [] {
    } else {
      var init, last := filters[..|filters| - 1], filters[|filters| - 1];
      assert filters == init + [last] && last in filters;
      assert Denoted(filters, q) <==> Denoted(init, q) || FilterPath(last) == q;
      DeletedAllIsExact(store, init, client, q, c);
      DeletedAllIsGood(store, init, client);
      DeletedOnce(DeletedAll(store, init, client), last, client, q, c);
    }
  }

  lemma CloseKeepsAgreement(before: State, e: Event, after: State)
    requires Orderly(before) && Agree(before) && Step(before, e, after) && e.Closed?
    ensures Agree(after)
  {
    var s := before.sessions[e.client];
    forall c, f | c in after.sessions && f in after.sessions[c].topics
      ensures InTrie(after.store, f, c)
    {
      assert c in before.sessions && f in before.sessions[c].topics && InTrie(before.store, f, c);
      if s.clean {
        DeletedAllIsExact(before.store, s.topics, e.client, FilterPath(f), c);
      }
    }
  }

  /** Every step keeps the agreement, but for an unsubscription that clashes. */
  lemma StepKeepsAgreementUnlessItClashes(before: State, e: Event, after: State)
    requires Orderly(before) && Agree(before) && Step(before, e, after)
    ensures Agree(after) <==> !Clashes(before, e)
  {
    hide Subscribed, Good;
    match e
    case Connected(_, _, _) =>
    case SubscribedTo(_, _, _) => SubscribeKeepsAgreement(before, e, after);
    case UnsubscribedFrom(_, _) => UnsubscribeKeepsAgreement(before, e, after);
    case Closed(_) => CloseKeepsAgreement(before, e, after);
  }

  // ---------- whole runs ----------

  /** All events but the last. */
  function Init(events: seq<Event>): (init: seq<Event>)
    requires events != []
    ensures |init| < |events|
  {
    events[..|events| - 1]
  }

  /** The events lead from one state to the other. */
  ghost predicate Ran(before: State, events: seq<Event>, after: State)
    decreases |events|
  {
    if events == [] then after == before
    else exists mid :: Ran(before, Init(events), mid) && Step(mid, events[|events| - 1], after)
  }

  lemma RanNext(before: State, events: seq<Event>, mid: State, e: Event, after: State)
    requires Ran(before, events, mid) && Step(mid, e, after)
    ensures Ran(before, events + [e], after)
  {
    assert Init(events + [e]) == events;
  }

  lemma BeforeLast(before: State, events: seq<Event>, after: State) returns (mid: State)
    requires events != [] && Ran(before, events, after)
    ensures Ran(before, Init(events), mid) && Step(mid, events[|events| - 1], after)
  {
    mid :| Ran(before, Init(events), mid) && Step(mid, events[|events| - 1], after);
  }

  lemma BeforeNth(before: State, events: seq<Event>, n: nat, after: State) returns (mid: State)
    requires n < |events| && Ran(before, events[..n + 1], after)
    ensures Ran(before, events[..n], mid) && Step(mid, events[n], after)
  {
    mid := BeforeLast(before, events[..n + 1], after);
    assert Init(events[..n + 1]) == events[..n];
  }

  lemma RanOne(before: State, e: Event, after: State)
    requires Step(before, e, after)
    ensures Ran(before, [e], after)
  {
    RanNext(before, [], before, e, after);
    assert [] + [e] == [e];
  }

  lemma RanOneMore(before: State, events: seq<Event>, i: nat, mid: State, after: State)
    requires i < |events| && Ran(before, events[..i], mid) && Step(mid, events[i], after)
    ensures Ran(before, events[..i + 1], after)
  {
    RanNext(before, events[..i], mid, events[i], after);
    assert events[..i + 1] == events[..i] + [events[i]];
  }

  lemma WholeRun(events: seq<Event>)
    ensures events[..|events|] == events && events[..0] == []
  {
  }

  const NOTHING := State(map[], map[])

  lemma {:induction false} RunsKeepOrder(before: State, events: seq<Event>, after: State)
    requires Orderly(before) && Ran(before, events, after)
    ensures Orderly(after)
    decreases |events|
  {
    if events == [] {
    } else {
      var mid := BeforeLast(before, events, after);
      RunsKeepOrder(before, Init(events), mid);
      StepKeepsOrder(mid, events[|events| - 1], after);
    }
  }

  lemma StepListsNothingElse(before: State, e: Event, after: State, c: string, f: string)
    requires Step(before, e, after) && c in after.sessions && f in after.sessions[c].topics
    ensures (e.SubscribedTo? && e.client == c && e.filter == f)
         || (c in before.sessions && f in before.sessions[c].topics)
  {
  }

  /** A session lists nothing but what its client has subscribed to. */
  lemma {:induction false} ListedFiltersCameIn(events: seq<Event>, after: State, c: string, f: string)
    returns (i: nat)
    requires Ran(NOTHING, events, after) && c in after.sessions && f in after.sessions[c].topics
    ensures i < |events| && events[i].SubscribedTo? && events[i].client == c && events[i].filter == f
    decreases |events|
  {
    var mid := BeforeLast(NOTHING, events, after);
    var e := events[|events| - 1];
    i := |events| - 1;
    StepListsNothingElse(mid, e, after, c, f);
    hide Ran, Step;
    if !(e.SubscribedTo? && e.client == c && e.filter == f) {
      i := ListedFiltersCameIn(Init(events), mid, c, f);
    }
  }

  /** The first event subscribes a client to the very list from which the second one unsubscribes it. */
  ghost predicate LeavesListOf(e: Event, d: Event)
  {
    && e.SubscribedTo? && d.UnsubscribedFrom? && e.client == d.client
    && e.filter != "$" && d.filter != "$" && FilterPath(e.filter) == FilterPath(d.filter)
  }

  /** No client unsubscribes from one of two filters for one list when it has subscribed to the other. */
  ghost predicate Separate(events: seq<Event>)
  {
    forall i, j :: 0 <= i < j < |events| && LeavesListOf(events[i], events[j]) ==> events[i].filter == events[j].filter
  }

  lemma SeparateNext(events: seq<Event>, mid: State)
    requires events != [] && Separate(events) && Ran(NOTHING, Init(events), mid)
    ensures Separate(Init(events)) && !Clashes(mid, events[|events| - 1])
  {
    var e := events[|events| - 1];
    if Clashes(mid, e) {
      var g :| g in mid.sessions[e.client].topics && g != "$" && g != e.filter && FilterPath(g) == FilterPath(e.filter);
      var i := ListedFiltersCameIn(Init(events), mid, e.client, g);
      assert false;
    }
  }

  /** Every run from the empty broker keeps the order, and the agreement if it is separate. */
  lemma {:induction false} RunsAgree(events: seq<Event>, after: State)
    requires Ran(NOTHING, events, after)
    ensures Orderly(after) && (Separate(events) ==> Agree(after))
    decreases |events|
  {
    RunsKeepOrder(NOTHING, events, after);
    if events != [] && Separate(events) {
      var mid := BeforeLast(NOTHING, events, after);
      SeparateNext(events, mid);
      RunsAgree(Init(events), mid);
      StepKeepsAgreementUnlessItClashes(mid, events[|events| - 1], after);
    }
  }

  /** In particular if all filters are canonical. */
  lemma CanonicalIsSeparate(events: seq<Event>)
    requires forall i :: 0 <= i < |events| && (events[i].SubscribedTo? || events[i].UnsubscribedFrom?) ==>
      Canonical(events[i].filter)
    ensures Separate(events)
  {
    forall i, j | 0 <= i < j < |events| && LeavesListOf(events[i], events[j])
      ensures events[i].filter == events[j].filter
    {
      CanonicalFiltersDoNotCollide(events[i].filter, events[j].filter);
    }
  }

  // ---------- what the filters of one packet come to ----------

  function SubscribeEvents(client: string, filters: seq<(string, int)>): seq<Event>
  {
    seq(|filters|, i requires 0 <= i < |filters| => SubscribedTo(client, filters[i].0, filters[i].1))
  }

  function UnsubscribeEvents(client: string, names: seq<string>): seq<Event>
  {
    seq(|names|, i requires 0 <= i < |names| => UnsubscribedFrom(client, names[i]))
  }

  predicate AllReadable(filters: seq<(string, int)>)
  {
    forall i :: 0 <= i < |filters| ==> filters[i].0 != "$"
  }

  /** One of the first `n` filters is the one that denotes `q`. */
  ghost predicate Listed(filters: seq<(string, int)>, n: nat, q: Path)
    requires n <= |filters| && AllReadable(filters)
  {
    exists i :: 0 <= i < n && FilterPath(filters[i].0) == q
  }

  /** The stored pairs after `n` filters of a SUBSCRIBE packet. */
  ghost predicate Granted(before: Store, after: Store, filters: seq<(string, int)>, n: nat, client: string)
    requires n <= |filters| && AllReadable(filters)
  {
    forall q, c :: Subscribed(after, q, c) <==> Subscribed(before, q, c) || (c == client && Listed(filters, n, q))
  }

  lemma GrantedNext(start: Store, before: State, e: Event, after: State, filters: seq<(string, int)>, n: nat)
    requires n < |filters| && AllReadable(filters)
    requires e.SubscribedTo? && e.filter == filters[n].0 && Orderly(before) && Step(before, e, after)
    requires Granted(start, before.store, filters, n, e.client)
    ensures Granted(start, after.store, filters, n + 1, e.client)
  {
    var p := FilterPath(filters[n].0);
    forall q
      ensures Listed(filters, n + 1, q) <==> Listed(filters, n, q) || q == p
    {
      if q == p {
        assert FilterPath(filters[n].0) == q;
      }
    }
    forall q, c
      ensures Subscribed(after.store, q, c) <==>
        Subscribed(start, q, c) || (c == e.client && Listed(filters, n + 1, q))
    {
      StepOnPairs(before.store, Subscribe(filters[n].0, e.maxQos, e.client), after.store, q, c);
    }
  }

  /** No session but the client's own has changed, and of that only the filters. */
  ghost predicate OnlyFiltersOf(client: string, before: State, after: State)
  {
    && client in before.sessions && client in after.sessions
    && after.sessions == before.sessions[client := before.sessions[client].(topics := after.sessions[client].topics)]
  }

  predicate FilterEvents(client: string, events: seq<Event>)
  {
    forall i :: 0 <= i < |events| ==>
      (events[i].SubscribedTo? || events[i].UnsubscribedFrom?) && events[i].client == client
  }

  lemma {:induction false} FiltersOnly(before: State, client: string, events: seq<Event>, after: State)
    requires FilterEvents(client, events) && client in before.sessions && Ran(before, events, after)
    ensures OnlyFiltersOf(client, before, after)
    decreases |events|
  {
    if events == [] {
    } else {
      var mid := BeforeLast(before, events, after);
      FiltersOnly(before, client, Init(events), mid);
    }
  }

  function NamesOf(filters: seq<(string, int)>): seq<string>
  {
    seq(|filters|, i requires 0 <= i < |filters| => filters[i].0)
  }

  /** The filters of a session after some more, or some fewer. */
  ghost predicate Gained(topics: seq<string>, before: seq<string>, names: seq<string>)
  {
    forall x :: x in topics <==> x in before || x in names
  }

  ghost predicate Lost(topics: seq<string>, before: seq<string>, names: seq<string>)
  {
    forall x :: x in topics <==> x in before && x !in names
  }

  lemma GainedNext(topics: seq<string>, mid: seq<string>, before: seq<string>, names: seq<string>, n: nat)
    requires n < |names| && Gained(mid, before, names[..n]) && Gained(topics, mid, [names[n]])
    ensures Gained(topics, before, names[..n + 1])
  {
    assert names[..n + 1] == names[..n] + [names[n]];
  }

  lemma ListedBySubscribing(before: State, client: string, filters: seq<(string, int)>, n: nat, after: State)
    returns (mid: State)
    requires n < |filters| && Ran(before, SubscribeEvents(client, filters)[..n + 1], after)
    ensures Ran(before, SubscribeEvents(client, filters)[..n], mid)
    ensures client in mid.sessions && client in after.sessions
    ensures Gained(after.sessions[client].topics, mid.sessions[client].topics, [filters[n].0])
  {
    mid := BeforeNth(before, SubscribeEvents(client, filters), n, after);
  }

  lemma {:induction false} SubscribingLists(before: State, client: string, filters: seq<(string, int)>, n: nat,
                                            after: State)
    requires n <= |filters| && client in before.sessions
    requires Ran(before, SubscribeEvents(client, filters)[..n], after)
    ensures client in after.sessions
    ensures Gained(after.sessions[client].topics, before.sessions[client].topics, NamesOf(filters)[..n])
  {
    if n == 0 {
      assert SubscribeEvents(client, filters)[..0] == [];
    } else {
      var mid := ListedBySubscribing(before, client, filters, n - 1, after);
      SubscribingLists(before, client, filters, n - 1, mid);
      GainedNext(after.sessions[client].topics, mid.sessions[client].topics, before.sessions[client].topics,
                 NamesOf(filters), n - 1);
    }
  }

  lemma StoredBySubscribing(before: State, client: string, filters: seq<(string, int)>, n: nat, after: State)
    returns (mid: State)
    requires n < |filters| && AllReadable(filters) && Orderly(before)
    requires Ran(before, SubscribeEvents(client, filters)[..n + 1], after)
    ensures Ran(before, SubscribeEvents(client, filters)[..n], mid)
    ensures Granted(before.store, mid.store, filters, n, client) ==>
      Granted(before.store, after.store, filters, n + 1, client)
  {
    var events := SubscribeEvents(client, filters);
    mid := BeforeNth(before, events, n, after);
    RunsKeepOrder(before, events[..n], mid);
    if Granted(before.store, mid.store, filters, n, client) {
      GrantedNext(before.store, mid, events[n], after, filters, n);
    }
  }

  lemma NothingStored(before: State, client: string, filters: seq<(string, int)>, after: State)
    requires AllReadable(filters) && Ran(before, SubscribeEvents(client, filters)[..0], after)
    ensures Granted(before.store, after.store, filters, 0, client)
  {
    assert SubscribeEvents(client, filters)[..0] == [];
  }

  lemma {:induction false} SubscribingStores(before: State, client: string, filters: seq<(string, int)>, n: nat,
                                             after: State)
    requires n <= |filters| && AllReadable(filters) && Orderly(before)
    requires Ran(before, SubscribeEvents(client, filters)[..n], after)
    ensures Granted(before.store, after.store, filters, n, client)
  {
    hide Granted, Orderly, Ran, AllReadable;
    if n == 0 {
      NothingStored(before, client, filters, after);
    } else {
      var mid := StoredBySubscribing(before, client, filters, n - 1, after);
      SubscribingStores(before, client, filters, n - 1, mid);
    }
  }

  /** A SUBSCRIBE packet stores exactly the filters asked for, under its client, lists them in its
      client's session, and leaves the other sessions alone. */
  lemma SubscribingGrants(before: State, client: string, filters: seq<(string, int)>, after: State)
    requires AllReadable(filters) && Orderly(before) && client in before.sessions
    requires Ran(before, SubscribeEvents(client, filters), after)
    ensures OnlyFiltersOf(client, before, after) && Granted(before.store, after.store, filters, |filters|, client)
    ensures Gained(after.sessions[client].topics, before.sessions[client].topics, NamesOf(filters))
  {
    var events, names := SubscribeEvents(client, filters), NamesOf(filters);
    assert events[..|filters|] == events && names[..|filters|] == names;
    FiltersOnly(before, client, events, after);
    SubscribingStores(before, client, filters, |filters|, after);
    SubscribingLists(before, client, filters, |filters|, after);
  }

  lemma LostNext(topics: seq<string>, mid: seq<string>, before: seq<string>, names: seq<string>, n: nat)
    requires n < |names| && Lost(mid, before, names[..n]) && Lost(topics, mid, [names[n]])
    ensures Lost(topics, before, names[..n + 1])
  {
    assert names[..n + 1] == names[..n] + [names[n]];
  }

  lemma UnlistedByUnsubscribing(before: State, client: string, names: seq<string>, n: nat, after: State)
    returns (mid: State)
    requires n < |names| && Ran(before, UnsubscribeEvents(client, names)[..n + 1], after)
    ensures Ran(before, UnsubscribeEvents(client, names)[..n], mid)
    ensures client in mid.sessions && client in after.sessions
    ensures Lost(after.sessions[client].topics, mid.sessions[client].topics, [names[n]])
  {
    mid := BeforeNth(before, UnsubscribeEvents(client, names), n, after);
  }

  lemma {:induction false} UnsubscribingLists(before: State, client: string, names: seq<string>, n: nat, after: State)
    requires n <= |names| && client in before.sessions
    requires Ran(before, UnsubscribeEvents(client, names)[..n], after)
    ensures client in after.sessions
    ensures Lost(after.sessions[client].topics, before.sessions[client].topics, names[..n])
  {
    if n == 0 {
      assert UnsubscribeEvents(client, names)[..0] == [];
    } else {
      var mid := UnlistedByUnsubscribing(before, client, names, n - 1, after);
      UnsubscribingLists(before, client, names, n - 1, mid);
      LostNext(after.sessions[client].topics, mid.sessions[client].topics, before.sessions[client].topics,
               names, n - 1);
    }
  }

  lemma DeletedByUnsubscribing(before: State, client: string, names: seq<string>, n: nat, after: State)
    returns (mid: State)
    requires n < |names| && (forall f :: f in names ==> Erasable(f))
    requires Ran(before, UnsubscribeEvents(client, names)[..n + 1], after)
    ensures Ran(before, UnsubscribeEvents(client, names)[..n], mid)
    ensures mid.store == DeletedAll(before.store, names[..n], client) ==>
      after.store == DeletedAll(before.store, names[..n + 1], client)
  {
    hide Erasable, Ran;
    mid := BeforeNth(before, UnsubscribeEvents(client, names), n, after);
    DeletedAllNext(before.store, names, n, client);
  }

  lemma NothingDeleted(before: State, client: string, names: seq<string>, after: State)
    requires Ran(before, UnsubscribeEvents(client, names)[..0], after)
    ensures after.store == DeletedAll(before.store, names[..0], client)
  {
    assert UnsubscribeEvents(client, names)[..0] == [] && names[..0] == [];
  }

  lemma {:induction false} UnsubscribingStores(before: State, client: string, names: seq<string>, n: nat, after: State)
    requires n <= |names| && (forall f :: f in names ==> Erasable(f))
    requires Ran(before, UnsubscribeEvents(client, names)[..n], after)
    ensures after.store == DeletedAll(before.store, names[..n], client)
  {
    hide Erasable, Ran, DeletedAll;
    if n == 0 {
      NothingDeleted(before, client, names, after);
    } else {
      var mid := DeletedByUnsubscribing(before, client, names, n - 1, after);
      UnsubscribingStores(before, client, names, n - 1, mid);
    }
  }

  /** An UNSUBSCRIBE packet deletes its filters one after the other, for its client, takes them from
      the list of its client's session, and leaves the other sessions alone. */
  lemma UnsubscribingDeletes(before: State, client: string, names: seq<string>, after: State)
    requires (forall f :: f in names ==> Erasable(f)) && client in before.sessions
    requires Ran(before, UnsubscribeEvents(client, names), after)
    ensures OnlyFiltersOf(client, before, after) && after.store == DeletedAll(before.store, names, client)
    ensures Lost(after.sessions[client].topics, before.sessions[client].topics, names)
  {
    var events := UnsubscribeEvents(client, names);
    assert events[..|names|] == events && names[..|names|] == names;
    FiltersOnly(before, client, events, after);
    UnsubscribingStores(before, client, names, |names|, after);
    UnsubscribingLists(before, client, names, |names|, after);
  }

  lemma DeletedAllNext(store: Store, filters: seq<string>, i: nat, client: string)
    requires i < |filters| && forall f :: f in filters ==> Erasable(f)
    ensures filters[i] in filters && (forall f :: f in filters[..i + 1] ==> Erasable(f))
    ensures DeletedAll(store, filters[..i + 1], client)
         == Deleted(DeletedAll(store, filters[..i], client), FilterPath(filters[i]), client)
  {
    assert filters[..i + 1][..i] == filters[..i] && filters[..i + 1][i] == filters[i];
  }

  /** All filters of a list may be deleted. */
  ghost predicate AllFollowable(store: Store, filters: seq<string>)
  {
    forall f :: f in filters ==> Erasable(f) && Followable(store, FilterPath(f))
  }

  /** Also after some of them have been. */
  lemma {:induction false} AllStayFollowable(store: Store, filters: seq<string>, i: nat, client: string)
    requires i <= |filters| && AllFollowable(store, filters)
    ensures AllFollowable(DeletedAll(store, filters[..i], client), filters)
  {
    if i == 0 {
      assert filters[..0] == [];
    } else {
      AllStayFollowable(store, filters, i - 1, client);
      DeletedAllNext(store, filters, i - 1, client);
      var mid := DeletedAll(store, filters[..i - 1], client);
      forall f | f in filters
        ensures Followable(Deleted(mid, FilterPath(filters[i - 1]), client), FilterPath(f))
      {
        StaysFollowable(mid, FilterPath(filters[i - 1]), client, FilterPath(f));
      }
    }
  }

  /** Where the lists agree with the store, all listed filters may be deleted, "$+" aside. */
  lemma ListedAreFollowable(st: State, c: string)
    requires Agree(st) && c in st.sessions && forall f :: f in st.sessions[c].topics ==> Erasable(f)
    ensures AllFollowable(st.store, st.sessions[c].topics)
  {
    forall f | f in st.sessions[c].topics
      ensures Followable(st.store, FilterPath(f))
    {
      assert InTrie(st.store, f, c);
    }
  }

  /** A session that is not clean leaves all its subscriptions behind. */
  lemma ResumableSessionsLeaveAll(before: State, e: Event, after: State, q: Path, c: string)
    requires Step(before, e, after) && e.Closed? && !before.sessions[e.client].clean
    ensures Subscribed(after.store, q, c) <==> Subscribed(before.store, q, c)
    ensures e.client !in after.sessions && forall d :: d in before.sessions && d != e.client ==>
      d in after.sessions && after.sessions[d] == before.sessions[d]
  {
  }

  /** Closing a clean session removes each of its filters, except where its entry is not the middle
      one of the subscriber list; every other stored pair stays. */
  lemma CloseIsExact(before: State, e: Event, after: State, q: Path, c: string)
    requires Orderly(before) && Step(before, e, after) && e.Closed? && before.sessions[e.client].clean
    ensures Subscribed(after.store, q, c) <==>
      Subscribed(before.store, q, c)
      && !(c == e.client && Denoted(before.sessions[c].topics, q) && Middle(before.store, q, c))
  {
    DeletedAllIsExact(before.store, before.sessions[e.client].topics, e.client, q, c);
  }

  /** So a filter that nobody else has is gone for certain. */
  lemma CloseRemovesUnsharedFilters(before: State, e: Event, after: State, f: string)
    requires Orderly(before) && Step(before, e, after) && e.Closed? && before.sessions[e.client].clean
    requires f in before.sessions[e.client].topics && f != "$" && FilterPath(f) in before.store
    requires Clients(before.store[FilterPath(f)]) == {e.client}
    ensures !Subscribed(after.store, FilterPath(f), e.client)
  {
    var l := before.store[FilterPath(f)];
    CloseIsExact(before, e, after, FilterPath(f), e.client);
    StrictHasOneEntryPerClient(l);
    assert |l| == 1;
    assert l[0].client in Clients(l);
  }

  /** The client is the only subscriber of the list. */
  ghost predicate Alone(store: Store, p: Path, c: string)
  {
    p in store && Clients(store[p]) == {c}
  }

  lemma SubscribingAlone(before: Store, f: string, q: int, c: string, after: Store)
    requires Steps(before, Subscribe(f, q, c), after)
    requires FilterPath(f) in before ==> Alone(before, FilterPath(f), c)
    ensures Alone(after, FilterPath(f), c)
  {
    assert Clients([]) == {};
  }

  lemma BothAreOneList(c: string, sock: int, clean: bool, q: int, r: int, first: State, second: State, third: State)
    requires Step(NOTHING, Connected(c, sock, clean), first)
    requires Step(first, SubscribedTo(c, "/a", q), second) && Step(second, SubscribedTo(c, "//a", r), third)
    ensures FilterPath("/a") == FilterPath("//a") && Alone(third.store, FilterPath("/a"), c)
  {
    hide Steps, FilterPath, Alone, Ascending;
    DroppedLevelCollides();
    SubscribingAlone(first.store, "/a", q, c, second.store);
    SubscribingAlone(second.store, "//a", r, c, third.store);
  }

  lemma OrderlyAfterThree(d: Event, e: Event, f: Event, first: State, second: State, third: State)
    requires Step(NOTHING, d, first) && Step(first, e, second) && Step(second, f, third)
    ensures Orderly(third)
  {
    assert Orderly(NOTHING);
    hide Orderly, Step;
    StepKeepsOrder(NOTHING, d, first);
    StepKeepsOrder(first, e, second);
    StepKeepsOrder(second, f, third);
  }

  /** Whoever has both of them and leaves one has lost the other, which its session still lists. */
  lemma LeavingOneLosesBoth(c: string, sock: int, clean: bool, q: int, r: int,
                            first: State, second: State, third: State, last: State)
    requires Step(NOTHING, Connected(c, sock, clean), first)
    requires Step(first, SubscribedTo(c, "/a", q), second) && Step(second, SubscribedTo(c, "//a", r), third)
    requires Step(third, UnsubscribedFrom(c, "/a"), last)
    ensures c in last.sessions && "//a" in last.sessions[c].topics && !InTrie(last.store, "//a", c)
  {
    hide Steps, Subscribed, FilterPath, Good, Alone, Ascending;
    OrderlyAfterThree(Connected(c, sock, clean), SubscribedTo(c, "/a", q), SubscribedTo(c, "//a", r),
                      first, second, third);
    BothAreOneList(c, sock, clean, q, r, first, second, third);
    LastOneLeaves(third.store, "/a", c, last.store);
  }

  lemma LastOneLeaves(before: Store, f: string, c: string, after: Store)
    requires Good(before) && Steps(before, Unsubscribe(f, c), after) && Alone(before, FilterPath(f), c)
    ensures !Subscribed(after, FilterPath(f), c)
  {
    AloneIsInTheMiddle(before[FilterPath(f)], c);
    StepOnPairs(before, Unsubscribe(f, c), after, FilterPath(f), c);
  }

  lemma AloneIsInTheMiddle(l: seq<Entry>, c: string)
    requires Strict(l) && Clients(l) == {c}
    ensures l != [] && l[|l| / 2].client == c
  {
    StrictHasOneEntryPerClient(l);
    assert l[|l| / 2].client in Clients(l);
  }
}
