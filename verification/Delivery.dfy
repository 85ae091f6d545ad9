/** What the PUBLISH branch of `event_handle` (src/event.c:145-188) and `publish_will_message`
    (src/session.c:267-307) send to the subscribers they find. */
module Delivery {
  import opened Prelude
  import opened Lengths
  import opened Topics
  import opened SubscriberLists
  import opened TopicStore
  import opened PacketIds

  /** One subscriber's copy: at which QoS, under which identifier bytes, and on which socket, if the
      subscriber is connected. */
  datatype Copy = Copy(client: string, sock: Option<int>, qos: int, id: Option<(Byte, Byte)>,
                       topic: string, payload: string)

  /** What is sent, and the sockets of the live sessions by client id. */
  datatype Post = Post(topic: string, payload: string, socks: map<string, int>)
  {
    function SockOf(client: string): Option<int>
    {
      if client in socks then Some(socks[client]) else None
    }
  }

  function Min(a: int, b: int): int
  {
    if a > b then b else a
  }

  /** One round of the loop at a QoS already chosen: the copy, and the packet table afterwards. */
  function OneCopy(client: string, qos: int, slots: Slots, post: Post): (Copy, Slots)
  {
    if qos == 0 then (Copy(client, post.SockOf(client), 0, None, post.topic, post.payload), slots)
    else
      (Copy(client, post.SockOf(client), qos, Some(MLBytes(NextId(slots))), post.topic, post.payload),
       WithMessage(slots, Message(client, post.topic, qos, post.payload)))
  }

  /** The whole loop, at a QoS for each subscriber. */
  function Copies(list: seq<Entry>, qoss: seq<int>, slots: Slots, post: Post): (seq<Copy>, Slots)
    requires |qoss| == |list|
  {
    if list == [] then ([], slots)
    else
      var (copy, next) := OneCopy(list[0].client, qoss[0], slots, post);
      var (rest, end) := Copies(list[1..], qoss[1..], next, post);
      ([copy] + rest, end)
  }

  /** Each subscriber gets one copy, in the order of the list, at its QoS and to its socket. */
  lemma {:induction false} CopiesAreInOrder(list: seq<Entry>, qoss: seq<int>, slots: Slots, post: Post)
    requires |qoss| == |list|
    ensures var copies := Copies(list, qoss, slots, post).0;
      |copies| == |list| && forall k :: 0 <= k < |list| ==>
        && copies[k].client == list[k].client && copies[k].qos == qoss[k]
        && copies[k].topic == post.topic && copies[k].payload == post.payload
        && copies[k].sock == if list[k].client in post.socks then Some(post.socks[list[k].client]) else None
    decreases |list|
  {
    if list == [] {
    } else {
      CopiesAreInOrder(list[1..], qoss[1..], OneCopy(list[0].client, qoss[0], slots, post).1, post);
    }
  }

  // ---------- which QoS a published message is sent at ----------

  /** The least of `qos` and the granted QoS of the first `k + 1` subscribers. */
  function Lowest(list: seq<Entry>, qos: int, k: nat): int
    requires k < |list|
  {
    if k == 0 then Min(qos, list[0].maxQos) else Min(Lowest(list, qos, k - 1), list[k].maxQos)
  }

  /** The QoS lowered for one subscriber stays lowered for the ones after it. */
  function Lowered(list: seq<Entry>, qos: int): (r: seq<int>)
    ensures |r| == |list|
  {
    seq(|list|, k requires 0 <= k < |list| => Lowest(list, qos, k))
  }

  lemma {:induction false} LowestIsLeast(list: seq<Entry>, qos: int, k: nat) returns (j: nat)
    requires k < |list|
    ensures forall i :: 0 <= i <= k ==> Lowest(list, qos, k) <= Min(qos, list[i].maxQos)
    ensures j <= k && Lowest(list, qos, k) == Min(qos, list[j].maxQos)
  {
    j := 0;
    if k == 0 {
    } else {
      j := LowestIsLeast(list, qos, k - 1);
      if Lowest(list, qos, k) < Lowest(list, qos, k - 1) {
        j := k;
      }
    }
  }

  /** Every subscriber gets the QoS of section 3.8.4 of MQTT 3.1.1, the lesser of the published and
      the granted one, exactly when that value never rises along the list. */
  lemma QosIsStandardUnlessItRises(list: seq<Entry>, qos: int)
    ensures
      (forall k :: 0 <= k < |list| ==> Lowered(list, qos)[k] == Min(qos, list[k].maxQos)) <==>
      (forall j, k :: 0 <= j < k < |list| ==> Min(qos, list[j].maxQos) >= Min(qos, list[k].maxQos))
  {
    if forall k :: 0 <= k < |list| ==> Lowered(list, qos)[k] == Min(qos, list[k].maxQos) {
      forall j, k | 0 <= j < k < |list|
        ensures Min(qos, list[j].maxQos) >= Min(qos, list[k].maxQos)
      {
        var _ := LowestIsLeast(list, qos, k);
        assert Lowered(list, qos)[k] == Lowest(list, qos, k);
      }
    }
    if forall j, k :: 0 <= j < k < |list| ==> Min(qos, list[j].maxQos) >= Min(qos, list[k].maxQos) {
      forall k | 0 <= k < |list|
        ensures Lowered(list, qos)[k] == Min(qos, list[k].maxQos)
      {
        var _ := LowestIsLeast(list, qos, k);
      }
    }
  }

  // ---------- which QoS a will message is sent at ----------

  /** The granted QoS of the last of the first `k + 1` subscribers for whom it is below the will's. */
  function WillQos(list: seq<Entry>, qos: int, k: nat): int
    requires k < |list|
  {
    if qos > list[k].maxQos then list[k].maxQos else if k == 0 then qos else WillQos(list, qos, k - 1)
  }

  /** The will's QoS is compared anew each time, but a QoS once lowered is not raised again. */
  function WillLowered(list: seq<Entry>, qos: int): (r: seq<int>)
    ensures |r| == |list|
  {
    seq(|list|, k requires 0 <= k < |list| => WillQos(list, qos, k))
  }

  lemma {:induction false} WillQosIsLowered(list: seq<Entry>, qos: int, k: nat)
    requires k < |list|
    ensures WillQos(list, qos, k) <= qos
    ensures WillQos(list, qos, k) == qos <==> forall j :: 0 <= j <= k ==> list[j].maxQos >= qos
  {
    if k == 0 {
    } else {
      WillQosIsLowered(list, qos, k - 1);
    }
  }

  /** Every subscriber gets the lesser of the will's and the granted QoS exactly when no subscriber
      who was granted the will's QoS comes after one who was not. */
  lemma WillQosIsStandardUnlessItReturns(list: seq<Entry>, qos: int)
    ensures
      (forall k :: 0 <= k < |list| ==> WillLowered(list, qos)[k] == Min(qos, list[k].maxQos)) <==>
      (forall j, k :: 0 <= j < k < |list| && list[j].maxQos < qos ==> list[k].maxQos < qos)
  {
    forall k | 0 <= k < |list|
      ensures WillLowered(list, qos)[k] == Min(qos, list[k].maxQos) <==>
        (list[k].maxQos >= qos ==> forall j :: 0 <= j < k ==> list[j].maxQos >= qos)
    {
      WillQosIsLowered(list, qos, k);
      assert WillLowered(list, qos)[k] == WillQos(list, qos, k);
    }
  }

  // ---------- what stays in the packet table ----------

  /** How many of the copies need an acknowledgement. */
  function Numbered(copies: seq<Copy>): nat
  {
    if copies == [] then 0 else (if copies[0].qos != 0 then 1 else 0) + Numbered(copies[1..])
  }

  /** The copy is stored, in a slot that was free before, under the identifier sent with it. */
  ghost predicate StoredFor(copy: Copy, before: Slots, after: Slots, post: Post)
  {
    exists id :: 1 <= id < SLOTS && before[id].Free?
      && after[id] == Held(Message(copy.client, post.topic, copy.qos, post.payload)) && copy.id == Some(MLBytes(id))
  }

  /** Messages already in the table stay as they are. */
  ghost predicate Keeps(before: Slots, after: Slots)
  {
    forall j :: 0 <= j < SLOTS && before[j].Held? ==> after[j] == before[j]
  }

  lemma OneCopyIsStored(client: string, qos: int, slots: Slots, post: Post)
    requires |InFlight(slots)| < LAST_ID
    ensures var (copy, next) := OneCopy(client, qos, slots, post);
      && Keeps(slots, next) && (if copy.qos == 0 then copy.id == None else StoredFor(copy, slots, next, post))
      && |InFlight(next)| == |InFlight(slots)| + (if copy.qos == 0 then 0 else 1)
  {
    if qos != 0 {
      IdsStayLow(slots);
      InFlightOfNext(slots, NextId(slots), Message(client, post.topic, qos, post.payload));
      var (copy, next) := OneCopy(client, qos, slots, post);
      assert next[NextId(slots)] == Held(Message(copy.client, post.topic, copy.qos, post.payload));
    }
  }

  lemma StoredForLonger(copy: Copy, before: Slots, mid: Slots, next: Slots, after: Slots, post: Post)
    requires StoredFor(copy, mid, next, post) && Keeps(before, mid) && Keeps(next, after)
    ensures StoredFor(copy, before, after, post)
  {
    var id :| 1 <= id < SLOTS && mid[id].Free?
      && next[id] == Held(Message(copy.client, post.topic, copy.qos, post.payload)) && copy.id == Some(MLBytes(id));
    assert before[id].Free? && after[id] == next[id];
  }

  /** As long as the table does not fill up, every copy above QoS 0 gets a slot of its own that was
      free, stored under the identifier that is sent with it, no other message is touched, and the
      table grows by exactly these copies. */
  lemma {:induction false} CopiesAreStored(list: seq<Entry>, qoss: seq<int>, slots: Slots, post: Post)
    requires |qoss| == |list| && |InFlight(slots)| + |list| <= LAST_ID
    ensures var (copies, end) := Copies(list, qoss, slots, post);
      && Keeps(slots, end) && |InFlight(end)| == |InFlight(slots)| + Numbered(copies)
      && forall k :: 0 <= k < |copies| ==>
           if copies[k].qos == 0 then copies[k].id == None else StoredFor(copies[k], slots, end, post)
    decreases |list|
  {
    if list == [] {
    } else {
      var (copy, next) := OneCopy(list[0].client, qoss[0], slots, post);
      OneCopyIsStored(list[0].client, qoss[0], slots, post);
      CopiesAreStored(list[1..], qoss[1..], next, post);
      var (rest, end) := Copies(list[1..], qoss[1..], next, post);
      var (copies, _) := Copies(list, qoss, slots, post);
      assert copies == [copy] + rest && copies[1..] == rest;
      forall k | 0 <= k < |copies|
        ensures if copies[k].qos == 0 then copies[k].id == None else StoredFor(copies[k], slots, end, post)
      {
        if copies[k].qos != 0 {
          if k == 0 {
            StoredForLonger(copy, slots, slots, next, end, post);
          } else {
            StoredForLonger(rest[k - 1], slots, next, end, end, post);
          }
        } else {
          assert k > 0 ==> copies[k] == rest[k - 1];
        }
      }
    }
  }

  // ---------- identifiers stay in step ----------

  /** Every message of the one state is pending in the other, under its identifier. */
  ghost predicate Continues(st: State, end: State)
  {
    && |st.sent| <= |end.sent| && end.sent[..|st.sent|] == st.sent
    && forall k :: k in st.ids ==> k in end.ids && end.ids[k] == st.ids[k]
  }

  /** The copy is a message sent since, pending under the identifier whose bytes went out with it. */
  ghost predicate Pending(copy: Copy, st: State, end: State, post: Post)
  {
    exists j :: |st.sent| <= j < |end.sent| && j in end.ids
      && end.sent[j] == Message(copy.client, post.topic, copy.qos, post.payload) && copy.id == Some(MLBytes(end.ids[j]))
  }

  lemma OneCopyIsSend(client: string, qos: int, st: State, post: Post) returns (next: State)
    requires InStep(st) && LowIds(st) && |st.ids| < SAFE
    ensures InStep(next) && LowIds(next) && Continues(st, next)
    ensures var (copy, slots) := OneCopy(client, qos, st.slots, post);
      && next.slots == slots && |next.ids| == |st.ids| + (if copy.qos == 0 then 0 else 1)
      && (copy.qos != 0 ==> Pending(copy, st, next, post))
  {
    next := st;
    if qos != 0 {
      var m := Message(client, post.topic, qos, post.payload);
      next := Next(st, Send(m));
      SendKeepsStep(st, m);
      SendContinues(st, m);
      hide InStep, LowIds, NextId, WithMessage;
      assert next.sent[|st.sent|] == m && |st.sent| in next.ids;
    }
  }

  lemma SendContinues(st: State, m: Message)
    requires InStep(st)
    ensures Continues(st, Next(st, Send(m))) && |Next(st, Send(m)).ids| == |st.ids| + 1
    ensures |st.sent| in Next(st, Send(m)).ids
  {
    assert |st.sent| !in st.ids && Next(st, Send(m)).ids.Keys == st.ids.Keys + {|st.sent|};
  }

  lemma PendingForLonger(copy: Copy, st: State, mid: State, next: State, end: State, post: Post)
    requires Pending(copy, mid, next, post) && Continues(st, mid) && Continues(next, end)
    ensures Pending(copy, st, end, post)
  {
    var j :| |mid.sent| <= j < |next.sent| && j in next.ids
      && next.sent[j] == Message(copy.client, post.topic, copy.qos, post.payload)
      && copy.id == Some(MLBytes(next.ids[j]));
    assert end.sent[j] == end.sent[..|next.sent|][j];
  }

  /** Whatever a PUBLISH sends with at most 127 messages in flight leaves the table in step: messages
      in flight keep their identifiers, and every copy above QoS 0 is pending under the identifier
      sent with it. */
  lemma {:induction false} CopiesKeepStep(list: seq<Entry>, qoss: seq<int>, st: State, post: Post) returns (end: State)
    requires |qoss| == |list| && InStep(st) && LowIds(st) && |st.ids| + |list| <= SAFE
    ensures InStep(end) && LowIds(end) && Continues(st, end)
    ensures var (copies, slots) := Copies(list, qoss, st.slots, post);
      && end.slots == slots && |end.ids| == |st.ids| + Numbered(copies)
      && forall k :: 0 <= k < |copies| && copies[k].qos != 0 ==> Pending(copies[k], st, end, post)
    decreases |list|
  {
    hide InStep, LowIds, OneCopy, Pending;
    end := st;
    if list == [] {
    } else {
      var next := OneCopyIsSend(list[0].client, qoss[0], st, post);
      end := CopiesKeepStep(list[1..], qoss[1..], next, post);
      var copy := OneCopy(list[0].client, qoss[0], st.slots, post).0;
      var rest := Copies(list[1..], qoss[1..], next.slots, post).0;
      var copies := Copies(list, qoss, st.slots, post).0;
      assert copies == [copy] + rest && copies[1..] == rest;
      forall k | 0 <= k < |copies| && copies[k].qos != 0
        ensures Pending(copies[k], st, end, post)
      {
        if k == 0 {
          PendingForLonger(copy, st, st, next, end, post);
        } else {
          PendingForLonger(rest[k - 1], st, next, end, end, post);
        }
      }
    }
  }

  // ---------- who is reached ----------

  /** Exactly one copy goes to the client, and that to its socket. */
  ghost predicate Served(copies: seq<Copy>, client: string, sock: int)
  {
    exists k :: 0 <= k < |copies| && copies[k].client == client && copies[k].sock == Some(sock)
      && forall j :: 0 <= j < |copies| && copies[j].client == client ==> j == k
  }

  /** One copy goes to every connected client with a subscription that the name selects, and copies
      go to no clients but those with such a subscription. */
  lemma MatchingClientsAreServed(store: Store, t: Topic, list: seq<Entry>, qoss: seq<int>, slots: Slots, post: Post,
                                 c: string)
    requires Answers(Some(list), store, t) && |qoss| == |list|
    ensures var copies := Copies(list, qoss, slots, post).0;
      && (c in post.socks && (exists p :: Subscribed(store, p, c) && Selects(store, p, t)) ==>
            Served(copies, c, post.socks[c]))
      && forall k :: 0 <= k < |copies| && copies[k].client == c ==>
           exists p :: Subscribed(store, p, c) && Selects(store, p, t)
  {
    var copies := Copies(list, qoss, slots, post).0;
    EachMatchIsListedOnce(store, t, list, c);
    CopiesAreInOrder(list, qoss, slots, post);
    if c in Clients(list) {
      var k :| 0 <= k < |list| && list[k].client == c;
      assert copies[k].client == c && forall j :: 0 <= j < |copies| ==> copies[j].client == list[j].client;
    }
  }

  // ---------- the loops ----------

  /** The copies made so far, with those still to be made, are all of them. */
  ghost predicate Finishes(done: seq<Copy>, rest: (seq<Copy>, Slots), all: (seq<Copy>, Slots))
  {
    all == (done + rest.0, rest.1)
  }

  lemma WholeList(list: seq<Entry>, qoss: seq<int>, all: (seq<Copy>, Slots))
    ensures list[0..] == list && qoss[0..] == qoss && Finishes([], all, all)
  {
    assert [] + all.0 == all.0;
  }

  lemma FinishesNext(done: seq<Copy>, list: seq<Entry>, qoss: seq<int>, i: nat, slots: Slots, post: Post,
                     all: (seq<Copy>, Slots))
    requires i < |list| == |qoss| && Finishes(done, Copies(list[i..], qoss[i..], slots, post), all)
    ensures var (copy, next) := OneCopy(list[i].client, qoss[i], slots, post);
      Finishes(done + [copy], Copies(list[i + 1..], qoss[i + 1..], next, post), all)
  {
    var (copy, next) := OneCopy(list[i].client, qoss[i], slots, post);
    var (rest, _) := Copies(list[i + 1..], qoss[i + 1..], next, post);
    assert list[i..][0] == list[i] && list[i..][1..] == list[i + 1..];
    assert qoss[i..][0] == qoss[i] && qoss[i..][1..] == qoss[i + 1..];
    assert (done + [copy]) + rest == done + ([copy] + rest);
  }

  lemma FinishesAll(done: seq<Copy>, list: seq<Entry>, qoss: seq<int>, slots: Slots, post: Post,
                    all: (seq<Copy>, Slots))
    requires |qoss| == |list| && Finishes(done, Copies(list[|list|..], qoss[|list|..], slots, post), all)
    ensures (done, slots) == all
  {
    assert done + [] == done;
  }

  // ---------- redelivery ----------

  /** The identifiers from `i` on that hold a message for the client. */
  function HeldFor(slots: Slots, client: string, i: nat): seq<nat>
    requires i <= SLOTS
    decreases SLOTS - i
  {
    if i == SLOTS then []
    else (if slots[i].Held? && slots[i].message.client == client then [i] else []) + HeldFor(slots, client, i + 1)
  }

  lemma HeldForNext(ids: seq<nat>, slots: Slots, client: string, i: nat)
    requires i < SLOTS
    ensures ids + HeldFor(slots, client, i) ==
      (if slots[i].Held? && slots[i].message.client == client then ids + [i] else ids) + HeldFor(slots, client, i + 1)
  {
    var here: seq<nat> := if slots[i].Held? && slots[i].message.client == client then [i] else [];
    var rest := HeldFor(slots, client, i + 1);
    assert ids + (here + rest) == (ids + here) + rest;
    assert ids + [] == ids;
  }

  lemma {:induction false} HeldForIsExact(slots: Slots, client: string, i: nat)
    requires i <= SLOTS
    ensures forall id :: id in HeldFor(slots, client, i) <==>
      i <= id < SLOTS && slots[id].Held? && slots[id].message.client == client
    decreases SLOTS - i
  {
    if i == SLOTS {
    } else {
      HeldForIsExact(slots, client, i + 1);
    }
  }

  ghost predicate Rises(ids: seq<nat>)
  {
    forall j, k :: 0 <= j < k < |ids| ==> ids[j] < ids[k]
  }

  lemma RisesFrom(i: nat, rest: seq<nat>)
    requires (forall id :: id in rest ==> i < id) && Rises(rest)
    ensures Rises([i] + rest)
  {
    var all := [i] + rest;
    forall j, k | 0 <= j < k < |all|
      ensures all[j] < all[k]
    {
      assert rest[k - 1] in rest;
    }
  }

  lemma {:induction false} HeldForRises(slots: Slots, client: string, i: nat)
    requires i <= SLOTS
    ensures Rises(HeldFor(slots, client, i))
    decreases SLOTS - i
  {
    if i == SLOTS {
    } else {
      HeldForIsExact(slots, client, i + 1);
      HeldForRises(slots, client, i + 1);
      var rest := HeldFor(slots, client, i + 1);
      forall id | id in rest
        ensures i < id
      {
        assert id in HeldFor(slots, client, i + 1);
      }
      RisesFrom(i, rest);
      assert [] + rest == rest;
    }
  }
}
