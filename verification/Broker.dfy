/** The broker of src/event.c and src/session.c: sessions by socket and by client id, the topic trie
    and the packet table, changed by one packet at a time. */
module Broker {
  import opened Prelude
  import opened Lengths
  import opened Topics
  import opened SubscriberLists
  import opened TopicStore
  import opened Scanning
  import opened TopicRuns
  import opened TrieShape
  import opened TopicTrie
  import opened Sessions
  import PacketIds
  import opened Delivery
  import opened BrokerRuns
  import opened Replies
  import Decoder

  const FAILURE: int := 128

  /** What the plugin returns for the filters of a SUBSCRIBE packet, if there is one. */
  type Plugin = Option<nat -> int>

  datatype Request =
    | ConnectPacket(client: string, flags: Byte, will: Option<(TopicName, string)>)
    | RefusedPacket     // CONNECT of another version, or one that the plugin turns down
    | PublishPacket(topic: TopicName, qos: int, id: (Byte, Byte), payload: string)
    | PubackPacket(id: (Byte, Byte))
    | PubrecPacket(id: (Byte, Byte))
    | PubrelPacket(id: (Byte, Byte))
    | PubcompPacket
    | SubscribePacket(id: (Byte, Byte), filters: seq<(string, int)>, plugin: Plugin)
    | UnsubscribePacket(id: (Byte, Byte), names: seq<string>)
    | PingreqPacket
    | DisconnectPacket
    | MalformedPacket   // the decoder returned NULL

  /** What a packet has the broker send: the copies of a message, the answers to the sender, and to a
      returning client the identifiers of the messages still held for it. The code -1 drops the
      connection. */
  datatype Output = Output(code: int, copies: seq<Copy>, answers: seq<seq<Byte>>, resent: seq<nat>)

  // ---------- the flags of CONNECT ----------

  predicate IsClean(flags: Byte)
  {
    Decoder.Bit(flags, 1) == 1
  }

  /** `will_qos` as `session_add` computes it (src/session.c:164): "&" binds less than "+". */
  function WillQosOf(flags: Byte): int
  {
    (2 * Decoder.Bit(flags, 4) + flags / 8) % 2
  }

  /** A will of QoS 2 is published at QoS 0. */
  lemma WillQosLosesItsHighBit(flags: Byte)
    ensures WillQosOf(flags) == Decoder.Bit(flags, 3)
    ensures WillQosOf(flags) == 2 * Decoder.Bit(flags, 4) + Decoder.Bit(flags, 3) <==> Decoder.Bit(flags, 4) == 0
  {
    assert Decoder.Bit(flags, 3) == Decoder.Bit(flags / 2, 2) == Decoder.Bit(flags / 4, 1) == Decoder.Bit(flags / 8, 0);
    assert flags / 2 / 2 / 2 == flags / 8;
  }

  /** What the flags say of session and will. */
  lemma FlagsAreRead(flags: Byte, will: Option<(TopicName, string)>)
    ensures IsClean(flags) <==> flags / 2 % 2 == 1
    ensures WillQosOf(flags) == flags / 8 % 2
    ensures WillOf(flags, None) == None
    ensures will.Some? ==> WillOf(flags, will) == Some(Will(will.value.0, will.value.1, flags / 8 % 2))
  {
    WillQosLosesItsHighBit(flags);
    assert Decoder.Bit(flags, 1) == flags / 2 % 2;
  }

  function WillOf(flags: Byte, will: Option<(TopicName, string)>): Option<Will>
  {
    if will.Some? then Some(Will(will.value.0, will.value.1, WillQosOf(flags))) else None
  }

  // ---------- the filters of one packet ----------

  /** Without a plugin every return code is the QoS asked for with the first filter (src/event.c:251). */
  function Code(filters: seq<(string, int)>, plugin: Plugin, i: nat): int
    requires i < |filters|
  {
    if plugin.Some? then plugin.value(i) else filters[0].1
  }

  function Codes(filters: seq<(string, int)>, plugin: Plugin): seq<int>
  {
    seq(|filters|, i requires 0 <= i < |filters| => Code(filters, plugin, i))
  }

  /** Without a plugin SUBACK grants every filter what it asked for exactly if all ask for the same. */
  lemma CodesAreOwnIfAllEqual(filters: seq<(string, int)>)
    ensures (forall i :: 0 <= i < |filters| ==> Codes(filters, None)[i] == filters[i].1) <==>
      (forall i, j :: 0 <= i < j < |filters| ==> filters[i].1 == filters[j].1)
  {
  }

  /** With a plugin every filter is answered as the plugin says. */
  lemma PluginDecides(filters: seq<(string, int)>, verdicts: nat -> int)
    ensures |Codes(filters, Some(verdicts))| == |filters|
    ensures forall i :: 0 <= i < |filters| ==> Codes(filters, Some(verdicts))[i] == verdicts(i)
  {
  }

  /** The filters with a return code other than 0x80. */
  function Admitted(filters: seq<(string, int)>, codes: seq<int>): seq<(string, int)>
    requires |codes| == |filters|
  {
    if filters == [] then []
    else
      var n := |filters| - 1;
      Admitted(filters[..n], codes[..n]) + (if codes[n] != FAILURE then [filters[n]] else [])
  }

  lemma {:induction false} AdmittedAreThere(filters: seq<(string, int)>, codes: seq<int>)
    requires |codes| == |filters|
    ensures forall x :: x in Admitted(filters, codes) <==>
      exists i :: 0 <= i < |filters| && filters[i] == x && codes[i] != 128
  {
    if filters == [] {
    } else {
      AdmittedAreThere(filters[..|filters| - 1], codes[..|filters| - 1]);
    }
  }

  /** Without a plugin the first filter decides for all of them. */
  lemma {:induction false} FirstFilterDecides(filters: seq<(string, int)>, n: nat)
    requires n <= |filters|
    ensures Admitted(filters[..n], Codes(filters, None)[..n])
         == if filters != [] && filters[0].1 == 128 then [] else filters[..n]
  {
    if n == 0 {
    } else {
      FirstFilterDecides(filters, n - 1);
      AdmittedNext(filters, Codes(filters, None), n - 1);
      assert filters[..n] == filters[..n - 1] + [filters[n - 1]];
    }
  }

  lemma AdmittedNext(filters: seq<(string, int)>, codes: seq<int>, i: nat)
    requires i < |codes| == |filters|
    ensures Admitted(filters[..i + 1], codes[..i + 1])
         == Admitted(filters[..i], codes[..i]) + (if codes[i] != FAILURE then [filters[i]] else [])
  {
    assert filters[..i + 1][..i] == filters[..i] && codes[..i + 1][..i] == codes[..i];
  }

  lemma AdmittedEvents(client: string, filters: seq<(string, int)>, codes: seq<int>, i: nat)
    requires i < |codes| == |filters|
    ensures SubscribeEvents(client, Admitted(filters[..i + 1], codes[..i + 1]))
         == SubscribeEvents(client, Admitted(filters[..i], codes[..i]))
            + (if codes[i] != FAILURE then [SubscribedTo(client, filters[i].0, filters[i].1)] else [])
  {
    AdmittedNext(filters, codes, i);
  }

  lemma NothingAdmitted(client: string, filters: seq<(string, int)>, codes: seq<int>, st: State)
    requires |codes| == |filters|
    ensures Ran(st, SubscribeEvents(client, Admitted(filters[..0], codes[..0])), st)
  {
    assert filters[..0] == [] && SubscribeEvents(client, []) == [];
  }

  lemma AllAsked(filters: seq<(string, int)>, codes: seq<int>)
    requires |codes| == |filters|
    ensures filters[..|filters|] == filters && codes[..|filters|] == codes
  {
  }

  /** What a packet from the session of `client` does to sessions and subscriptions. */
  function EventsOf(client: string, r: Request): seq<Event>
  {
    match r
    case SubscribePacket(_, filters, plugin) => SubscribeEvents(client, Admitted(filters, Codes(filters, plugin)))
    case UnsubscribePacket(_, names) => UnsubscribeEvents(client, names)
    case DisconnectPacket => [Closed(client)]
    case MalformedPacket => [Closed(client)]
    case _ => []
  }

  /** The answers to the sender. */
  function AnswersTo(r: Request): seq<seq<Byte>>
  {
    match r
    case PublishPacket(_, qos, id, _) =>
      if qos == 1 then [ConstBytes(4, 0, id.0, id.1)] else if qos == 2 then [ConstBytes(5, 0, id.0, id.1)] else []
    case PubrecPacket(id) => [ConstBytes(6, 2, id.0, id.1)]
    case PubrelPacket(id) => [ConstBytes(7, 0, id.0, id.1)]
    case SubscribePacket(id, filters, plugin) => [SubackBytes(id.0, id.1, Codes(filters, plugin))]
    case UnsubscribePacket(id, _) => [ConstBytes(11, 0, id.0, id.1)]
    case PingreqPacket => [[208, 0]]
    case _ => []
  }

  /** The answers are the packets of sections 3.4 to 3.7, 3.9, 3.11 and 3.13 of MQTT 3.1.1, with the
      identifier of the packet answered. */
  lemma AnswersAreStandard(r: Request)
    ensures match r
      case PublishPacket(_, qos, id, _) =>
        AnswersTo(r) == if qos == 1 then [[64, 2, id.0, id.1]] else if qos == 2 then [[80, 2, id.0, id.1]] else []
      case PubrecPacket(id) => AnswersTo(r) == [[98, 2, id.0, id.1]]
      case PubrelPacket(id) => AnswersTo(r) == [[112, 2, id.0, id.1]]
      case SubscribePacket(id, filters, plugin) =>
        |AnswersTo(r)| == 1 && (|filters| <= 125 ==>
          AnswersTo(r)[0] == [144, 2 + |filters|, id.0, id.1] + Bytes(Codes(filters, plugin)))
      case UnsubscribePacket(id, _) => AnswersTo(r) == [[176, 2, id.0, id.1]]
      case PingreqPacket => AnswersTo(r) == [[208, 0]]
      case _ => AnswersTo(r) == []
  {
  }

  ghost predicate AllLive(list: seq<Entry>, socks: map<string, int>)
  {
    forall e :: e in list ==> e.client in socks
  }

  /** What the end of a session with this will sends and stores. There is no output when the search
      runs off its array or a subscriber is not connected, whose session is then dereferenced. */
  ghost predicate WillEffect(will: Option<Will>, store: Store, socks: map<string, int>, found: Option<seq<Entry>>,
                             before: PacketIds.Slots, after: PacketIds.Slots, copies: Option<seq<Copy>>)
  {
    if will.None? then after == before && copies == Some([])
    else
      var post := Post(will.value.topic, will.value.payload, socks);
      && Answers(found, store, TopicOf(post.topic))
      && (copies.Some? <==> found.Some? && AllLive(found.value, socks))
      && (copies.Some? ==>
            (copies.value, after) == Copies(found.value, WillLowered(found.value, will.value.qos), before, post))
  }

  /** What a PUBLISH packet sends and stores. There is no output when the search runs off its array. */
  ghost predicate PublishEffect(post: Post, qos: int, store: Store, found: Option<seq<Entry>>,
                                before: PacketIds.Slots, after: PacketIds.Slots, copies: Option<seq<Copy>>)
    requires post.topic != "$"
  {
    && Answers(found, store, TopicOf(post.topic)) && (copies.Some? <==> found.Some?)
    && if copies.Some? then (copies.value, after) == Copies(found.value, Lowered(found.value, qos), before, post)
       else after == before
  }

  predicate NamesSlot(id: (Byte, Byte), slots: PacketIds.Slots)
  {
    var slot := StringLen([id.0, id.1], 0);
    slot.Ok? && slot.value < PacketIds.SLOTS && slots[slot.value].Held?
  }

  /** `string_len` on the two bytes, spelled out. */
  lemma NamedSlot(id: (Byte, Byte), slots: PacketIds.Slots)
    ensures NamesSlot(id, slots) <==>
      if id.1 < 128 then slots[id.1].Held? else id.0 < 128 && slots[128 * id.0 + id.1 - 128].Held?
    ensures NamesSlot(id, slots) ==>
      StringLen([id.0, id.1], 0).value == if id.1 < 128 then id.1 else 128 * id.0 + id.1 - 128
  {
    ShortStringLen([id.0, id.1], 0);
  }

  function Released(id: (Byte, Byte), slots: PacketIds.Slots): PacketIds.Slots
    requires NamesSlot(id, slots)
  {
    slots[StringLen([id.0, id.1], 0).value := PacketIds.Free]
  }

  /** An acknowledgement changes one slot, which was occupied and is free afterwards. */
  lemma ReleasedFreesOne(id: (Byte, Byte), slots: PacketIds.Slots)
    requires NamesSlot(id, slots)
    ensures var slot, after := StringLen([id.0, id.1], 0).value, Released(id, slots);
      && slots[slot].Held? && after[slot].Free?
      && forall i :: 0 <= i < PacketIds.SLOTS && i != slot ==> after[i] == slots[i]
  {
  }

  /** While the table is in step and no identifier exceeds 127, the bytes sent with a pending message
      name its own slot, and the packet that brings them back takes the table where the machine of
      PacketIds goes. */
  lemma AcknowledgementFreesItsOwn(st: PacketIds.State, k: nat)
    requires PacketIds.InStep(st) && PacketIds.LowIds(st) && k in st.ids
    ensures var id := MLBytes(st.ids[k]);
      && NamesSlot(id, st.slots) && PacketIds.CanHappen(st, PacketIds.Ack(k))
      && Released(id, st.slots) == PacketIds.Next(st, PacketIds.Ack(k)).slots
      && Released(id, st.slots) == st.slots[st.ids[k] := PacketIds.Free]
      && PacketIds.InStep(PacketIds.Next(st, PacketIds.Ack(k)))
      && PacketIds.LowIds(PacketIds.Next(st, PacketIds.Ack(k)))
  {
    PacketIds.AckKeepsStep(st, k);
    MLRoundTrip(st.ids[k]);
  }

  /** What a packet may rely on: no filter is "$" alone, a deletion does not meet a way without a list
      nor a first level "$+", an acknowledgement names an occupied slot. */
  ghost predicate Fit(r: Request, st: SessionState, store: Store, slots: PacketIds.Slots)
  {
    match r
    case SubscribePacket(_, filters, _) => AllReadable(filters)
    case UnsubscribePacket(_, names) => AllFollowable(store, names)
    case DisconnectPacket => st.clean ==> AllFollowable(store, st.topics)
    case MalformedPacket => st.clean ==> AllFollowable(store, st.topics)
    case PubackPacket(id) => NamesSlot(id, slots)
    case PubrecPacket(id) => NamesSlot(id, slots)
    case _ => true
  }

  /** Only deletions and acknowledgements rely on something, and a state in agreement gives the end of a
      session what it needs, "$+" aside. */
  lemma MostPacketsAreFit(r: Request, st: State, c: string, slots: PacketIds.Slots)
    requires c in st.sessions && Agree(st) && forall f :: f in st.sessions[c].topics ==> Erasable(f)
    requires r.SubscribePacket? ==> forall i :: 0 <= i < |r.filters| ==> r.filters[i].0 != "$"
    requires !r.UnsubscribePacket? && !r.PubackPacket? && !r.PubrecPacket?
    ensures Fit(r, st.sessions[c], st.store, slots)
  {
    ListedAreFollowable(st, c);
  }

  /** What a packet from a live session does to the packet table, and what it has the broker send. */
  ghost predicate Effect(r: Request, will: Option<Will>, store: Store, socks: map<string, int>,
                         found: Option<seq<Entry>>, before: PacketIds.Slots, after: PacketIds.Slots,
                         out: Option<Output>)
    requires r.PubackPacket? || r.PubrecPacket? ==> NamesSlot(r.id, before)
  {
    var copies := if out.Some? then Some(out.value.copies) else None;
    match r
    case PublishPacket(topic, qos, _, payload) =>
      && PublishEffect(Post(topic, payload, socks), qos, store, found, before, after, copies)
      && (out.Some? ==> out.value == Output(0, out.value.copies, AnswersTo(r), []))
    case DisconnectPacket =>
      && WillEffect(will, store, socks, found, before, after, copies)
      && (out.Some? ==> out.value == Output(-1, out.value.copies, [], []))
    case MalformedPacket =>
      && WillEffect(will, store, socks, found, before, after, copies)
      && (out.Some? ==> out.value == Output(-1, out.value.copies, [], []))
    case PubackPacket(id) => after == Released(id, before) && out == Some(Output(0, [], AnswersTo(r), []))
    case PubrecPacket(id) => after == Released(id, before) && out == Some(Output(0, [], AnswersTo(r), []))
    case _ => after == before && out == Some(Output(0, [], AnswersTo(r), []))
  }

  // ---------- every matching session is served ----------

  function SocketsOf(st: State): map<string, int>
  {
    map c | c in st.sessions :: st.sessions[c].sock
  }

  predicate Wanted(store: Store, filter: string, topic: string)
    requires topic != "$"
  {
    filter != "$" && Selects(store, FilterPath(filter), TopicOf(topic))
  }

  /** Every live session that lists a filter which the name selects gets one copy, on its socket. */
  ghost predicate AllServed(st: State, topic: string, copies: seq<Copy>)
    requires topic != "$"
  {
    forall c, f :: c in st.sessions && f in st.sessions[c].topics && Wanted(st.store, f, topic) ==>
      Served(copies, c, st.sessions[c].sock)
  }

  lemma AgreementServesAll(st: State, post: Post, list: seq<Entry>, qoss: seq<int>, slots: PacketIds.Slots)
    requires Agree(st) && post.topic != "$" && post.socks == SocketsOf(st) && |qoss| == |list|
    requires Answers(Some(list), st.store, TopicOf(post.topic))
    ensures AllServed(st, post.topic, Copies(list, qoss, slots, post).0)
  {
    var copies := Copies(list, qoss, slots, post).0;
    forall c, f | c in st.sessions && f in st.sessions[c].topics && Wanted(st.store, f, post.topic)
      ensures Served(copies, c, st.sessions[c].sock)
    {
      assert InTrie(st.store, f, c);
      MatchingClientsAreServed(st.store, TopicOf(post.topic), list, qoss, slots, post, c);
    }
  }

  /** The client has a stored subscription that the name selects. */
  ghost predicate Entitled(store: Store, topic: string, client: string)
    requires topic != "$"
  {
    exists p :: Subscribed(store, p, client) && Selects(store, p, TopicOf(topic))
  }

  /** No copy goes to anybody else. */
  ghost predicate NobodyElse(store: Store, topic: string, copies: seq<Copy>)
    requires topic != "$"
  {
    forall k :: 0 <= k < |copies| ==> Entitled(store, topic, copies[k].client)
  }

  lemma CopiesGoToNobodyElse(store: Store, post: Post, list: seq<Entry>, qoss: seq<int>, slots: PacketIds.Slots)
    requires post.topic != "$" && Answers(Some(list), store, TopicOf(post.topic)) && |qoss| == |list|
    ensures NobodyElse(store, post.topic, Copies(list, qoss, slots, post).0)
  {
    var copies := Copies(list, qoss, slots, post).0;
    forall k | 0 <= k < |copies|
      ensures Entitled(store, post.topic, copies[k].client)
    {
      CopiesAreInOrder(list, qoss, slots, post);
      assert copies[k].client == list[k].client;
      EachMatchIsListedOnce(store, TopicOf(post.topic), list, list[k].client);
    }
  }

  /** Every copy is of this message, at no more than its QoS and the granted one. */
  ghost predicate CopiesOf(topic: string, payload: string, qos: int, list: seq<Entry>, copies: seq<Copy>)
  {
    && |copies| == |list|
    && forall k :: 0 <= k < |list| ==>
         && copies[k].client == list[k].client && copies[k].topic == topic && copies[k].payload == payload
         && copies[k].qos <= qos && copies[k].qos <= list[k].maxQos
  }

  /** After any separate run from the empty broker, a PUBLISH that completes sends one copy of the
      message to the socket of every live session that lists a filter selected by the name, and no copy
      to a client without such a subscription. */
  lemma RunsServeAll(events: seq<Event>, st: State, r: Request, will: Option<Will>, found: Option<seq<Entry>>,
                     before: PacketIds.Slots, after: PacketIds.Slots, out: Output)
    requires Ran(NOTHING, events, st) && Separate(events) && r.PublishPacket?
    requires Effect(r, will, st.store, SocketsOf(st), found, before, after, Some(out))
    ensures AllServed(st, r.topic, out.copies) && NobodyElse(st.store, r.topic, out.copies)
    ensures found.Some? && CopiesOf(r.topic, r.payload, r.qos, found.value, out.copies)
  {
    var post, list, qos := Post(r.topic, r.payload, SocketsOf(st)), found.value, r.qos;
    RunsAgree(events, st);
    AgreementServesAll(st, post, list, Lowered(list, qos), before);
    CopiesGoToNobodyElse(st.store, post, list, Lowered(list, qos), before);
    CopiesAreInOrder(list, Lowered(list, qos), before, post);
    forall k | 0 <= k < |list|
      ensures Lowered(list, qos)[k] <= qos && Lowered(list, qos)[k] <= list[k].maxQos
    {
      var _ := LowestIsLeast(list, qos, k);
    }
  }

  /** The same for the will of a session that ends. */
  lemma RunsServeWills(events: seq<Event>, st: State, r: Request, will: Will, found: Option<seq<Entry>>,
                       before: PacketIds.Slots, after: PacketIds.Slots, out: Output)
    requires Ran(NOTHING, events, st) && Separate(events) && (r.DisconnectPacket? || r.MalformedPacket?)
    requires Effect(r, Some(will), st.store, SocketsOf(st), found, before, after, Some(out))
    ensures AllServed(st, will.topic, out.copies) && NobodyElse(st.store, will.topic, out.copies)
    ensures found.Some? && |out.copies| == |found.value| && forall k :: 0 <= k < |out.copies| ==>
      out.copies[k].topic == will.topic && out.copies[k].payload == will.payload && out.copies[k].qos <= will.qos
  {
    var post, list := Post(will.topic, will.payload, SocketsOf(st)), found.value;
    RunsAgree(events, st);
    AgreementServesAll(st, post, list, WillLowered(list, will.qos), before);
    CopiesGoToNobodyElse(st.store, post, list, WillLowered(list, will.qos), before);
    CopiesAreInOrder(list, WillLowered(list, will.qos), before, post);
    forall k | 0 <= k < |list|
      ensures WillLowered(list, will.qos)[k] <= will.qos
    {
      WillQosIsLowered(list, will.qos, k);
    }
  }

  // ---------- what a packet does to sessions and subscriptions ----------

  /** The session is gone, the others are as before, and of the stored pairs those of a clean session
      that deletion finds. */
  ghost predicate Ended(before: State, c: string, after: State)
    requires c in before.sessions
  {
    && after.sessions == before.sessions - {c}
    && forall q, d :: Subscribed(after.store, q, d) <==>
         Subscribed(before.store, q, d) && !(before.sessions[c].clean && d == c
           && Denoted(before.sessions[c].topics, q) && Middle(before.store, q, c))
  }

  lemma OneEnd(before: State, c: string, after: State)
    requires Orderly(before) && c in before.sessions && Ran(before, [Closed(c)], after)
    ensures Ended(before, c, after)
  {
    var mid := BeforeLast(before, [Closed(c)], after);
    assert Init([Closed(c)]) == [] && mid == before;
    forall q, d
      ensures Subscribed(after.store, q, d) <==>
        Subscribed(before.store, q, d) && !(before.sessions[c].clean && d == c
          && Denoted(before.sessions[c].topics, q) && Middle(before.store, q, c))
    {
      if before.sessions[c].clean {
        CloseIsExact(before, Closed(c), after, q, d);
      }
    }
  }

  /** SUBSCRIBE stores and lists the filters admitted, UNSUBSCRIBE deletes and unlists its names, the
      end of a session takes it away, with its subscriptions if it is clean, and every other packet
      leaves all of it alone. */
  lemma PacketsChangeSubscriptions(r: Request, before: State, c: string, after: State)
    requires Orderly(before) && c in before.sessions && Ran(before, EventsOf(c, r), after)
    requires r.SubscribePacket? ==> AllReadable(r.filters)
    requires r.UnsubscribePacket? ==> forall f :: f in r.names ==> Erasable(f)
    ensures match r
      case SubscribePacket(_, filters, plugin) =>
        var admitted := Admitted(filters, Codes(filters, plugin));
        && AllReadable(admitted) && OnlyFiltersOf(c, before, after)
        && Granted(before.store, after.store, admitted, |admitted|, c)
        && Gained(after.sessions[c].topics, before.sessions[c].topics, NamesOf(admitted))
      case UnsubscribePacket(_, names) =>
        && OnlyFiltersOf(c, before, after) && after.store == DeletedAll(before.store, names, c)
        && Lost(after.sessions[c].topics, before.sessions[c].topics, names)
      case DisconnectPacket => Ended(before, c, after)
      case MalformedPacket => Ended(before, c, after)
      case _ => after == before
  {
    match r
    case SubscribePacket(_, filters, plugin) =>
      AdmittedAreThere(filters, Codes(filters, plugin));
      var admitted := Admitted(filters, Codes(filters, plugin));
      assert forall i :: 0 <= i < |admitted| ==> admitted[i] in admitted;
      SubscribingGrants(before, c, admitted, after);
    case UnsubscribePacket(_, names) =>
      UnsubscribingDeletes(before, c, names, after);
    case DisconnectPacket =>
      OneEnd(before, c, after);
    case MalformedPacket =>
      OneEnd(before, c, after);
    case _ =>
  }

  // ---------- identifiers stay in step ----------

  /** Every packet that completes, from a client that acknowledges only what is pending, leaves the
      packet table in step as long as at most 127 messages are in flight. */
  lemma EffectKeepsStep(r: Request, will: Option<Will>, store: Store, socks: map<string, int>,
                        found: Option<seq<Entry>>, st: PacketIds.State, after: PacketIds.Slots, out: Option<Output>)
    returns (end: PacketIds.State)
    requires PacketIds.InStep(st) && PacketIds.LowIds(st)
    requires found.Some? ==> |st.ids| + |found.value| <= PacketIds.SAFE
    requires r.PubackPacket? || r.PubrecPacket? ==>
      NamesSlot(r.id, st.slots) && exists k :: k in st.ids && r.id == MLBytes(st.ids[k])
    requires Effect(r, will, store, socks, found, st.slots, after, out) && out.Some?
    ensures end.slots == after && PacketIds.InStep(end) && PacketIds.LowIds(end)
    ensures r.PubackPacket? || r.PubrecPacket? ==>
      exists k :: k in st.ids && r.id == MLBytes(st.ids[k]) && end == PacketIds.Next(st, PacketIds.Ack(k))
    ensures !r.PubackPacket? && !r.PubrecPacket? ==> Continues(st, end)
  {
    end := st;
    if r.PubackPacket? || r.PubrecPacket? {
      var k :| k in st.ids && r.id == MLBytes(st.ids[k]);
      AcknowledgementFreesItsOwn(st, k);
      end := PacketIds.Next(st, PacketIds.Ack(k));
    } else if r.PublishPacket? {
      end := CopiesKeepStep(found.value, Lowered(found.value, r.qos), st, Post(r.topic, r.payload, socks));
    } else if (r.DisconnectPacket? || r.MalformedPacket?) && will.Some? {
      var post := Post(will.value.topic, will.value.payload, socks);
      end := CopiesKeepStep(found.value, WillLowered(found.value, will.value.qos), st, post);
    }
  }

  class Server {
    const trie: Trie
    const table: PacketIds.PacketTable
    var bySock: map<int, Session>
    var byClient: map<string, Session>

    /** The two hash tables hold the same sessions. */
    ghost predicate Indexed()
      reads this`bySock, this`byClient
    {
      && (forall c :: c in byClient ==>
            byClient[c].clientId == c && byClient[c].sock in bySock && bySock[byClient[c].sock] == byClient[c])
      && (forall k :: k in bySock ==>
            bySock[k].sock == k && bySock[k].clientId in byClient && byClient[bySock[k].clientId] == bySock[k])
    }

    ghost function SessionStates(): map<string, SessionState>
      reads this`byClient, byClient.Values`topics
    {
      map c | c in byClient :: SessionState(byClient[c].sock, byClient[c].clean, byClient[c].topics)
    }

    ghost function StateOf(s: Session): SessionState
      reads s`topics
    {
      SessionState(s.sock, s.clean, s.topics)
    }

    ghost function View(): State
      reads this`byClient, trie`store, byClient.Values`topics
    {
      State(trie.store, SessionStates())
    }

    ghost function Sockets(): (r: map<string, int>)
      reads this`byClient
    {
      map c | c in byClient :: byClient[c].sock
    }

    ghost predicate Sound()
      reads this`bySock, this`byClient, trie, trie.repr
    {
      trie.Valid() && table.Valid() && Indexed()
    }

    ghost predicate Valid()
      reads this`bySock, this`byClient, trie, trie.repr, byClient.Values`topics
    {
      Sound() && Orderly(View())
    }

    constructor ()
      ensures Valid() && View() == NOTHING && byClient == map[]
      ensures fresh(trie) && fresh(trie.repr) && fresh(table.slots)
    {
      trie := new Trie();
      table := new PacketIds.PacketTable();
      bySock, byClient := map[], map[];
      new;
      assert View() == NOTHING;
    }

    // ---------- CONNECT ----------

    /** HASH_ADD to both tables. */
    method Register(sock: int, client: string, clean: bool, will: Option<Will>) returns (s: Session)
      requires Indexed() && client !in byClient && sock !in bySock
      modifies this`bySock, this`byClient
      ensures Indexed() && fresh(s) && byClient == old(byClient)[client := s] && bySock == old(bySock)[sock := s]
      ensures s.sock == sock && s.clientId == client && s.clean == clean && s.topics == [] && s.will == will
      ensures SessionStates() == old(SessionStates())[client := SessionState(sock, clean, [])]
    {
      s := new Session(sock, client, clean, will);
      bySock, byClient := bySock[sock := s], byClient[client := s];
    }

    lemma SocketIsTaken(sock: int) returns (d: string)
      requires Indexed() && sock in bySock
      ensures d in SessionStates() && SessionStates()[d].sock == sock
    {
      d := bySock[sock].clientId;
    }

    lemma FreeSocket(sock: int, client: string, clean: bool)
      requires Indexed() && CanHappen(View(), Connected(client, sock, clean))
      ensures sock !in bySock && client !in byClient
    {
      assert client !in SessionStates();
      if sock in bySock {
        var _ := SocketIsTaken(sock);
      }
    }

    /** `session_add` for a client id and a socket that no live session has. */
    method AddSession(sock: int, client: string, clean: bool, will: Option<Will>) returns (s: Session)
      requires Valid() && CanHappen(View(), Connected(client, sock, clean))
      modifies this`bySock, this`byClient
      ensures fresh(s) && byClient == old(byClient)[client := s] && bySock == old(bySock)[sock := s]
      ensures s.sock == sock && s.clientId == client && s.clean == clean && s.topics == [] && s.will == will
      ensures Valid() && Step(old(View()), Connected(client, sock, clean), View())
    {
      hide Trie.ValidBut, Orderly, Indexed;
      ghost var before := View();
      FreeSocket(sock, client, clean);
      s := Register(sock, client, clean, will);
      StepKeepsOrder(before, Connected(client, sock, clean), View());
    }

    /** The loop that sends a returning client what is still held for it, in the order of the
        identifiers. */
    method Redeliver(client: string) returns (ids: seq<nat>)
      requires table.Valid()
      ensures ids == HeldFor(table.slots[..], client, 1)
    {
      ids := [];
      var i := 1;
      ghost var slots := table.slots[..];
      while i < PacketIds.SLOTS
        invariant 1 <= i <= PacketIds.SLOTS && HeldFor(slots, client, 1) == ids + HeldFor(slots, client, i)
      {
        HeldForNext(ids, slots, client, i);
        if table.slots[i].Held? && table.slots[i].message.client == client {
          ids := ids + [i];
        }
        i := i + 1;
      }
    }

    /** The CONNECT branch for an accepted connection. */
    method Connect(sock: int, client: string, flags: Byte, will: Option<(TopicName, string)>)
      returns (s: Session, out: Output)
      requires Valid() && CanHappen(View(), Connected(client, sock, IsClean(flags)))
      modifies this`bySock, this`byClient
      ensures byClient == old(byClient)[client := s] && bySock == old(bySock)[sock := s]
      ensures s.sock == sock && s.clientId == client && s.clean == IsClean(flags) && s.topics == []
      ensures s.will == WillOf(flags, will)
      ensures Valid() && Step(old(View()), Connected(client, sock, IsClean(flags)), View())
      ensures out == Output(0, [], [Connack(flags)],
                            if IsClean(flags) then [] else HeldFor(table.slots[..], client, 1))
    {
      hide Shape, Orderly;
      s := AddSession(sock, client, IsClean(flags), WillOf(flags, will));
      var answer := ConstToHex(2, 0, if flags / 2 == 0 then 1 else 0, 0);
      var resent := [];
      if !IsClean(flags) {
        resent := Redeliver(client);
      }
      out := Output(0, [], [answer], resent);
    }

    // ---------- SUBSCRIBE and UNSUBSCRIBE ----------

    lemma SessionIs(s: Session)
      requires Valid() && s in byClient.Values
      ensures s.clientId in byClient && byClient[s.clientId] == s && bySock[s.sock] == s
      ensures s.clientId in View().sessions && View().sessions[s.clientId] == SessionState(s.sock, s.clean, s.topics)
      ensures Ascending(s.topics)
    {
      var c :| c in byClient && byClient[c] == s;
      assert c in View().sessions;
    }

    method ListTopic(s: Session, filter: string)
      requires s.clientId in byClient && byClient[s.clientId] == s && Indexed() && Ascending(s.topics)
      modifies s`topics
      ensures Ascending(s.topics) && forall x :: x in s.topics <==> x in old(s.topics) || x == filter
      ensures SessionStates() == old(SessionStates())[s.clientId := SessionState(s.sock, s.clean, s.topics)]
    {
      s.SubscribeTopic(filter);
    }

    method UnlistTopic(s: Session, filter: string)
      requires s.clientId in byClient && byClient[s.clientId] == s && Indexed() && Ascending(s.topics)
      modifies s`topics
      ensures Ascending(s.topics) && forall x :: x in s.topics <==> x in old(s.topics) && x != filter
      ensures SessionStates() == old(SessionStates())[s.clientId := SessionState(s.sock, s.clean, s.topics)]
    {
      s.UnsubscribeTopic(filter);
    }

    /** `session_topic_subscribe`. */
    method SubscribeInTrie(filter: string, maxQos: int, client: string)
      requires trie.Valid() && filter != "$"
      modifies trie`nodes, trie`views, trie`repr, trie`store, trie.repr
      ensures trie.Valid() && fresh(trie.repr - old(trie.repr))
      ensures Steps(old(trie.store), TopicRuns.Subscribe(filter, maxQos, client), trie.store)
    {
      trie.Intercept(filter, maxQos, client);
    }

    /** `session_topic_unsubscribe`. The sessions do not notice. */
    method UnsubscribeInTrie(filter: string, client: string)
      requires trie.Valid() && filter != "$" && !SysPlus(filter) && Followable(trie.store, FilterPath(filter))
      modifies trie`nodes, trie`views, trie`store, trie.repr
      ensures trie.Valid() && SessionStates() == old(SessionStates())
      ensures Steps(old(trie.store), TopicRuns.Unsubscribe(filter, client), trie.store)
    {
      hide Shape;
      trie.NodesAreWays(FilterPath(filter).at);
      trie.DeleteTopic(filter, client);
    }

    method SubscribeBoth(s: Session, filter: string, maxQos: int)
      requires trie.Valid() && Indexed() && s.clientId in byClient && byClient[s.clientId] == s
      requires filter != "$" && Ascending(s.topics)
      modifies s`topics, trie`nodes, trie`views, trie`repr, trie`store, trie.repr
      ensures trie.Valid() && Indexed() && fresh(trie.repr - old(trie.repr))
      ensures Ascending(s.topics) && forall x :: x in s.topics <==> x in old(s.topics) || x == filter
      ensures SessionStates() == old(SessionStates())[s.clientId := SessionState(s.sock, s.clean, s.topics)]
      ensures Steps(old(trie.store), TopicRuns.Subscribe(filter, maxQos, s.clientId), trie.store)
    {
      hide Shape, Orderly;
      ghost var there := trie.repr;
      ListTopic(s, filter);
      assert trie.repr == there && trie.Valid();
      ghost var sessions := SessionStates();
      SubscribeInTrie(filter, maxQos, s.clientId);
      assert SessionStates() == sessions;
      assert fresh(trie.repr - there);
    }

    /** One filter of a SUBSCRIBE packet. */
    method SubscribeOne(s: Session, filter: string, maxQos: int)
      requires Valid() && s in byClient.Values && filter != "$"
      modifies s`topics, trie`nodes, trie`views, trie`repr, trie`store, trie.repr
      ensures Valid() && fresh(trie.repr - old(trie.repr))
      ensures Step(old(View()), SubscribedTo(s.clientId, filter, maxQos), View())
    {
      hide Trie.ValidBut, Orderly, Indexed, Ascending;
      ghost var before := View();
      SessionIs(s);
      SubscribeBoth(s, filter, maxQos);
      StepKeepsOrder(before, SubscribedTo(s.clientId, filter, maxQos), View());
    }

    /** One filter of an UNSUBSCRIBE packet. */
    method UnsubscribeOne(s: Session, filter: string)
      requires Valid() && s in byClient.Values && Erasable(filter) && Followable(trie.store, FilterPath(filter))
      modifies s`topics, trie`nodes, trie`views, trie`store, trie.repr
      ensures Valid() && Step(old(View()), UnsubscribedFrom(s.clientId, filter), View())
    {
      hide Trie.ValidBut, Orderly, Indexed, Ascending;
      ghost var before := View();
      SessionIs(s);
      UnlistTopic(s, filter);
      UnsubscribeInTrie(filter, s.clientId);
      StepKeepsOrder(before, UnsubscribedFrom(s.clientId, filter), View());
    }

    method SubscribeNext(s: Session, filters: seq<(string, int)>, i: nat, code: int, ghost codes: seq<int>,
                         ghost start: State)
      requires Valid() && s in byClient.Values && AllReadable(filters)
      requires i < |filters| == |codes| && code == codes[i]
      requires Ran(start, SubscribeEvents(s.clientId, Admitted(filters[..i], codes[..i])), View())
      modifies s`topics, trie`nodes, trie`views, trie`repr, trie`store, trie.repr
      ensures Valid() && fresh(trie.repr - old(trie.repr))
      ensures Ran(start, SubscribeEvents(s.clientId, Admitted(filters[..i + 1], codes[..i + 1])), View())
    {
      hide Shape, Orderly;
      ghost var before, events := View(), SubscribeEvents(s.clientId, Admitted(filters[..i], codes[..i]));
      AdmittedEvents(s.clientId, filters, codes, i);
      if code != FAILURE {
        SubscribeOne(s, filters[i].0, filters[i].1);
        RanNext(start, events, before, SubscribedTo(s.clientId, filters[i].0, filters[i].1), View());
      } else {
        assert events + [] == events;
      }
    }

    /** The loop over the filters. */
    method SubscribeAll(s: Session, filters: seq<(string, int)>, plugin: Plugin) returns (codes: seq<int>)
      requires Valid() && s in byClient.Values && AllReadable(filters)
      modifies s`topics, trie`nodes, trie`views, trie`repr, trie`store, trie.repr
      ensures Valid() && fresh(trie.repr - old(trie.repr)) && codes == Codes(filters, plugin)
      ensures Ran(old(View()), SubscribeEvents(s.clientId, Admitted(filters, codes)), View())
    {
      hide Trie.ValidBut, Orderly, SessionStates, Step, Indexed, Admitted, SubscribeEvents;
      ghost var start, all := View(), Codes(filters, plugin);
      codes := [];
      NothingAdmitted(s.clientId, filters, all, start);
      for i := 0 to |filters|
        invariant Valid() && fresh(trie.repr - old(trie.repr))
        invariant |codes| == i && forall k :: 0 <= k < i ==> codes[k] == all[k]
        invariant Ran(start, SubscribeEvents(s.clientId, Admitted(filters[..i], all[..i])), View())
      {
        var code := Code(filters, plugin, i);
        codes := codes + [code];
        SubscribeNext(s, filters, i, code, all, start);
      }
      AllAsked(filters, all);
    }

    /** The SUBSCRIBE branch. */
    method Subscribe(s: Session, id: (Byte, Byte), filters: seq<(string, int)>, plugin: Plugin)
      returns (out: Output)
      requires Valid() && s in byClient.Values && AllReadable(filters)
      modifies s`topics, trie`nodes, trie`views, trie`repr, trie`store, trie.repr
      ensures Valid() && fresh(trie.repr - old(trie.repr))
      ensures Ran(old(View()), SubscribeEvents(s.clientId, Admitted(filters, Codes(filters, plugin))), View())
      ensures out == Output(0, [], [SubackBytes(id.0, id.1, Codes(filters, plugin))], [])
    {
      hide Trie.ValidBut, Orderly, SessionStates, Ran;
      var codes := SubscribeAll(s, filters, plugin);
      var answer := SubackToHex(id.0, id.1, codes);
      out := Output(0, [], [answer], []);
    }

    method UnsubscribeNext(s: Session, names: seq<string>, i: nat, ghost start: State)
      requires Valid() && s in byClient.Values && AllFollowable(start.store, names) && i < |names|
      requires Ran(start, UnsubscribeEvents(s.clientId, names)[..i], View())
      modifies s`topics, trie`nodes, trie`views, trie`store, trie.repr
      ensures Valid() && Ran(start, UnsubscribeEvents(s.clientId, names)[..i + 1], View())
    {
      hide Shape, Orderly;
      ghost var before := View();
      UnsubscribingStores(start, s.clientId, names, i, before);
      AllStayFollowable(start.store, names, i, s.clientId);
      assert names[i] in names;
      UnsubscribeOne(s, names[i]);
      RanOneMore(start, UnsubscribeEvents(s.clientId, names), i, before, View());
    }

    /** The UNSUBSCRIBE branch. */
    method Unsubscribe(s: Session, id: (Byte, Byte), names: seq<string>) returns (out: Output)
      requires Valid() && s in byClient.Values && AllFollowable(trie.store, names)
      modifies s`topics, trie`nodes, trie`views, trie`store, trie.repr
      ensures Valid() && Ran(old(View()), UnsubscribeEvents(s.clientId, names), View())
      ensures out == Output(0, [], [ConstBytes(11, 0, id.0, id.1)], [])
    {
      hide Trie.ValidBut, Orderly, Indexed, SessionStates, Step, AllFollowable;
      ghost var start := View();
      for i := 0 to |names|
        invariant Valid() && Ran(start, UnsubscribeEvents(s.clientId, names)[..i], View())
      {
        UnsubscribeNext(s, names, i, start);
      }
      WholeRun(UnsubscribeEvents(s.clientId, names));
      var answer := ConstToHex(11, 0, id.0, id.1);
      out := Output(0, [], [answer], []);
    }

    // ---------- PUBLISH and its acknowledgements ----------

    /** One round of the loop over the subscribers. */
    method SendCopy(client: string, qos: int, topic: string, payload: string) returns (copy: Copy)
      requires table.Valid()
      modifies table.slots
      ensures table.Valid()
      ensures (copy, table.slots[..]) == OneCopy(client, qos, old(table.slots[..]), Post(topic, payload, Sockets()))
    {
      var sock := if client in byClient then Some(byClient[client].sock) else None;
      if qos == 0 {
        copy := Copy(client, sock, 0, None, topic, payload);
      } else {
        var id := table.Add(PacketIds.Message(client, topic, qos, payload));
        var msb, lsb := MLEncode(id);
        copy := Copy(client, sock, qos, Some((msb, lsb)), topic, payload);
      }
    }

    /** The loop over the subscribers (src/event.c:145-188). */
    method SendCopies(list: seq<Entry>, qos0: int, topic: string, payload: string) returns (copies: seq<Copy>)
      requires table.Valid()
      modifies table.slots
      ensures table.Valid()
      ensures (copies, table.slots[..])
           == Copies(list, Lowered(list, qos0), old(table.slots[..]), Post(topic, payload, Sockets()))
    {
      var qos := qos0;
      copies := [];
      ghost var post, qoss := Post(topic, payload, Sockets()), Lowered(list, qos0);
      ghost var goal := Copies(list, qoss, table.slots[..], post);
      WholeList(list, qoss, goal);
      for i := 0 to |list|
        invariant table.Valid() && qos == if i == 0 then qos0 else Lowest(list, qos0, i - 1)
        invariant Finishes(copies, Copies(list[i..], qoss[i..], table.slots[..], post), goal)
      {
        if qos > list[i].maxQos {
          qos := list[i].maxQos;
        }
        FinishesNext(copies, list, qoss, i, table.slots[..], post, goal);
        var copy := SendCopy(list[i].client, qos, topic, payload);
        copies := copies + [copy];
      }
      FinishesAll(copies, list, qoss, table.slots[..], post, goal);
    }

    /** The PUBLISH branch up to the answer to the publisher. */
    method Publish(topic: TopicName, qos: int, payload: string)
      returns (copies: Option<seq<Copy>>, ghost found: Option<seq<Entry>>)
      requires trie.Valid() && table.Valid()
      modifies table.slots
      ensures table.Valid()
      ensures PublishEffect(Post(topic, payload, Sockets()), qos, trie.store, found,
                            old(table.slots[..]), table.slots[..], copies)
    {
      var list := trie.Search(topic);
      found := list;
      if list.None? {
        return None, found;
      }
      var sent := SendCopies(list.value, qos, topic, payload);
      copies := Some(sent);
    }

    /** The PUBACK branch, and the release in the PUBREC branch: the two identifier bytes of the
        packet, read back by `string_len`, say which slot is freed. */
    method Acknowledge(id: (Byte, Byte))
      requires table.Valid() && NamesSlot(id, table.slots[..])
      modifies table.slots
      ensures table.Valid() && table.slots[..] == Released(id, old(table.slots[..]))
      ensures var slot := StringLen([id.0, id.1], 0).value;
        && table.slots[slot].Free?
        && forall i :: 0 <= i < PacketIds.SLOTS && i != slot ==> table.slots[i] == old(table.slots[i])
    {
      var r := ReadStringLen([id.0, id.1], 0);
      assert table.slots[..][r.value] == table.slots[r.value];
      table.Delete(r.value);
    }

    // ---------- the will ----------

    /** The loop of `publish_will_message` over the subscribers. */
    method SendWill(list: seq<Entry>, will: Will) returns (copies: Option<seq<Copy>>)
      requires table.Valid()
      modifies table.slots
      ensures table.Valid() && (copies.Some? <==> AllLive(list, Sockets()))
      ensures copies.Some? ==>
        (copies.value, table.slots[..])
          == Copies(list, WillLowered(list, will.qos), old(table.slots[..]), Post(will.topic, will.payload, Sockets()))
    {
      hide Shape, Orderly;
      var qos, sent := will.qos, [];
      ghost var post, qoss := Post(will.topic, will.payload, Sockets()), WillLowered(list, will.qos);
      ghost var goal := Copies(list, qoss, table.slots[..], post);
      WholeList(list, qoss, goal);
      for i := 0 to |list|
        invariant table.Valid() && qos == if i == 0 then will.qos else WillQos(list, will.qos, i - 1)
        invariant Finishes(sent, Copies(list[i..], qoss[i..], table.slots[..], post), goal)
        invariant forall k :: 0 <= k < i ==> list[k].client in byClient
      {
        if will.qos > list[i].maxQos {
          qos := list[i].maxQos;
        }
        FinishesNext(sent, list, qoss, i, table.slots[..], post, goal);
        var copy := SendCopy(list[i].client, qos, will.topic, will.payload);
        if copy.sock.None? {
          assert list[i] in list;
          return None;
        }
        sent := sent + [copy];
      }
      FinishesAll(sent, list, qoss, table.slots[..], post, goal);
      copies := Some(sent);
    }

    /** `publish_will_message`. */
    method PublishWill(will: Option<Will>) returns (copies: Option<seq<Copy>>, ghost found: Option<seq<Entry>>)
      requires trie.Valid() && table.Valid()
      modifies table.slots
      ensures table.Valid()
      ensures WillEffect(will, trie.store, Sockets(), found, old(table.slots[..]), table.slots[..], copies)
    {
      found := None;
      if will.None? {
        return Some([]), found;
      }
      var list := trie.Search(will.value.topic);
      found := list;
      if list.None? {
        return None, found;
      }
      copies := SendWill(list.value, will.value);
    }

    // ---------- closing a session ----------

    method ForgetNext(topics: seq<string>, i: nat, client: string, ghost start: Store)
      requires trie.Valid() && AllFollowable(start, topics) && i < |topics|
      requires trie.store == DeletedAll(start, topics[..i], client)
      modifies trie`nodes, trie`views, trie`store, trie.repr
      ensures trie.Valid() && SessionStates() == old(SessionStates())
      ensures trie.store == DeletedAll(start, topics[..i + 1], client)
    {
      DeletedAllNext(start, topics, i, client);
      AllStayFollowable(start, topics, i, client);
      UnsubscribeInTrie(topics[i], client);
    }

    /** The loop of `session_delete` over the filters of a clean session. */
    method ForgetTopics(topics: seq<string>, client: string)
      requires trie.Valid() && AllFollowable(trie.store, topics)
      modifies trie`nodes, trie`views, trie`store, trie.repr
      ensures trie.Valid() && SessionStates() == old(SessionStates())
      ensures trie.store == DeletedAll(old(trie.store), topics, client)
    {
      ghost var start := trie.store;
      for i := 0 to |topics|
        invariant trie.Valid() && SessionStates() == old(SessionStates())
        invariant trie.store == DeletedAll(start, topics[..i], client)
      {
        ForgetNext(topics, i, client, start);
      }
      assert topics[..|topics|] == topics;
    }

    /** HASH_DELETE from both tables. */
    method Unregister(s: Session)
      requires Indexed() && s.clientId in byClient && byClient[s.clientId] == s
      modifies this`bySock, this`byClient
      ensures Indexed() && byClient == old(byClient) - {s.clientId}
      ensures SessionStates() == old(SessionStates()) - {s.clientId}
    {
      bySock, byClient := bySock - {s.sock}, byClient - {s.clientId};
    }

    method Release(s: Session)
      requires trie.Valid() && Indexed() && s.clientId in byClient && byClient[s.clientId] == s
      requires s.clean ==> AllFollowable(trie.store, s.topics)
      modifies this`bySock, this`byClient, trie`nodes, trie`views, trie`store, trie.repr
      ensures trie.Valid() && Indexed() && byClient == old(byClient) - {s.clientId}
      ensures SessionStates() == old(SessionStates()) - {s.clientId}
      ensures trie.store == if s.clean then DeletedAll(old(trie.store), s.topics, s.clientId) else old(trie.store)
    {
      hide Shape, Orderly;
      if s.clean {
        ForgetTopics(s.topics, s.clientId);
      }
      Unregister(s);
    }

    /** `session_delete`: a clean session takes its filters out of the trie. */
    method Delete(s: Session)
      requires Valid() && s in byClient.Values && (s.clean ==> AllFollowable(trie.store, s.topics))
      modifies this`bySock, this`byClient, trie`nodes, trie`views, trie`store, trie.repr
      ensures Valid() && Step(old(View()), Closed(s.clientId), View())
      ensures byClient == old(byClient) - {s.clientId}
    {
      hide Trie.ValidBut, Orderly, Indexed;
      ghost var before := View();
      SessionIs(s);
      Release(s);
      StepKeepsOrder(before, Closed(s.clientId), View());
    }

    /** `session_close`: the will, then the session. */
    method Close(s: Session) returns (copies: Option<seq<Copy>>, ghost found: Option<seq<Entry>>)
      requires Valid() && s in byClient.Values && (s.clean ==> AllFollowable(trie.store, s.topics))
      modifies this`bySock, this`byClient, trie`nodes, trie`views, trie`store, trie.repr, table.slots
      ensures table.Valid()
      ensures WillEffect(s.will, old(trie.store), old(Sockets()), found, old(table.slots[..]), table.slots[..], copies)
      ensures Valid()
      ensures if copies.Some? then Step(old(View()), Closed(s.clientId), View()) else View() == old(View())
    {
      hide Trie.ValidBut, Orderly, WillEffect, Step, Trie.Synced, Indexed, SessionStates;
      copies, found := PublishWill(s.will);
      if copies.Some? {
        Delete(s);
      }
    }

    // ---------- one packet ----------

    /** PUBLISH, the acknowledgements and PINGREQ: no session and no subscription changes. */
    method HandleMessage(s: Session, r: Request) returns (out: Option<Output>, ghost found: Option<seq<Entry>>)
      requires trie.Valid() && table.Valid() && Fit(r, StateOf(s), trie.store, table.slots[..])
      requires !r.SubscribePacket? && !r.UnsubscribePacket? && !r.DisconnectPacket? && !r.MalformedPacket?
      modifies table.slots
      ensures table.Valid()
      ensures Effect(r, s.will, trie.store, Sockets(), found, old(table.slots[..]), table.slots[..], out)
    {
      hide Shape, Orderly;
      found := None;
      var copies, answers := Some([]), [];
      match r {
        case PublishPacket(topic, qos, id, payload) =>
          copies, found := Publish(topic, qos, payload);
          if qos == 1 || qos == 2 {
            var answer := ConstToHex(3 + qos, 0, id.0, id.1);
            answers := [answer];
          }
        case PubackPacket(id) =>
          Acknowledge(id);
        case PubrecPacket(id) =>
          Acknowledge(id);
          var answer := ConstToHex(6, 2, id.0, id.1);
          answers := [answer];
        case PubrelPacket(id) =>
          var answer := ConstToHex(7, 0, id.0, id.1);
          answers := [answer];
        case PingreqPacket =>
          answers := [[208, 0]];
        case _ =>
      }
      out := if copies.Some? then Some(Output(0, copies.value, answers, [])) else None;
    }

    /** SUBSCRIBE and UNSUBSCRIBE. */
    method HandleTopics(s: Session, r: Request) returns (out: Output)
      requires Valid() && s in byClient.Values && Fit(r, StateOf(s), trie.store, table.slots[..])
      requires r.SubscribePacket? || r.UnsubscribePacket?
      modifies s`topics, trie`nodes, trie`views, trie`repr, trie`store, trie.repr
      ensures Valid() && Ran(old(View()), EventsOf(s.clientId, r), View())
      ensures out == Output(0, [], AnswersTo(r), [])
    {
      hide Shape, Orderly;
      match r {
        case SubscribePacket(id, filters, plugin) =>
          out := Subscribe(s, id, filters, plugin);
        case UnsubscribePacket(id, names) =>
          out := Unsubscribe(s, id, names);
      }
    }

    /** DISCONNECT, or a packet that the decoder refuses. */
    method HandleEnd(s: Session) returns (out: Option<Output>, ghost found: Option<seq<Entry>>)
      requires Valid() && s in byClient.Values && (s.clean ==> AllFollowable(trie.store, s.topics))
      modifies this`bySock, this`byClient, trie`nodes, trie`views, trie`store, trie.repr, table.slots
      ensures table.Valid()
      ensures Effect(DisconnectPacket, s.will, old(trie.store), old(Sockets()), found,
                     old(table.slots[..]), table.slots[..], out)
      ensures Valid()
      ensures if out.Some? then Ran(old(View()), [Closed(s.clientId)], View()) else View() == old(View())
    {
      hide Trie.ValidBut, Orderly, WillEffect, Indexed, SessionStates, Step, Ran;
      var copies;
      ghost var before := View();
      copies, found := Close(s);
      if copies.Some? {
        RanOne(before, Closed(s.clientId), View());
      }
      out := if copies.Some? then Some(Output(-1, copies.value, [], [])) else None;
    }

    /** `event_handle` behind the lookup of the session. */
    method HandleFrom(s: Session, r: Request) returns (out: Option<Output>, ghost found: Option<seq<Entry>>)
      requires Valid() && s in byClient.Values && Fit(r, StateOf(s), trie.store, table.slots[..])
      modifies this`bySock, this`byClient, s`topics, table.slots
      modifies trie`nodes, trie`views, trie`repr, trie`store, trie.repr
      ensures table.Valid()
      ensures Effect(r, s.will, old(trie.store), old(Sockets()), found, old(table.slots[..]), table.slots[..], out)
      ensures Valid()
      ensures if out.Some? then Ran(old(View()), EventsOf(s.clientId, r), View()) else View() == old(View())
    {
      hide Trie.ValidBut, Orderly, WillEffect, PublishEffect, Indexed, SessionStates, Step, AllFollowable;
      if r.SubscribePacket? || r.UnsubscribePacket? {
        var done := HandleTopics(s, r);
        out, found := Some(done), None;
      } else if r.DisconnectPacket? || r.MalformedPacket? {
        out, found := HandleEnd(s);
      } else {
        out, found := HandleMessage(s, r);
      }
    }

    /** `event_handle`: one packet from one socket. There is no output when the program does not
        survive the packet: a search runs off its array, or a will meets a subscriber without a
        session. */
    method Handle(sock: int, r: Request) returns (out: Option<Output>, ghost found: Option<seq<Entry>>)
      requires Valid()
      requires r.ConnectPacket? ==> CanHappen(View(), Connected(r.client, sock, IsClean(r.flags)))
      requires sock in bySock ==> Fit(r, StateOf(bySock[sock]), trie.store, table.slots[..])
      modifies this`bySock, this`byClient, byClient.Values`topics, table.slots
      modifies trie`nodes, trie`views, trie`repr, trie`store, trie.repr
      ensures table.Valid()
      ensures r.ConnectPacket? ==>
        && Step(old(View()), Connected(r.client, sock, IsClean(r.flags)), View())
        && sock in bySock && r.client in byClient && byClient[r.client] == bySock[sock]
        && bySock[sock].clientId == r.client && bySock[sock].sock == sock && bySock[sock].topics == []
        && bySock[sock].clean == IsClean(r.flags) && bySock[sock].will == WillOf(r.flags, r.will)
        && table.slots[..] == old(table.slots[..])
        && out == Some(Output(0, [], [Connack(r.flags)],
                              if IsClean(r.flags) then [] else HeldFor(table.slots[..], r.client, 1)))
      ensures r.RefusedPacket? || (!r.ConnectPacket? && sock !in old(bySock)) ==>
        && View() == old(View()) && table.slots[..] == old(table.slots[..])
        && out == Some(Output(-1, [], if r.RefusedPacket? then [ConnackRefused()] else [], []))
      ensures !r.ConnectPacket? && !r.RefusedPacket? && sock in old(bySock) ==>
        && (if out.Some? then Ran(old(View()), EventsOf(old(bySock[sock].clientId), r), View())
            else View() == old(View()))
        && Effect(r, old(bySock[sock].will), old(trie.store), old(Sockets()), found,
                  old(table.slots[..]), table.slots[..], out)
      ensures !r.ConnectPacket? && !r.RefusedPacket? && sock in old(bySock) && out.Some? ==>
        && out.value.code == (if r.DisconnectPacket? || r.MalformedPacket? then -1 else 0)
        && out.value.answers == AnswersTo(r) && out.value.resent == []
        && (!r.PublishPacket? && out.value.code == 0 ==> out.value.copies == [])
      ensures Valid()
    {
      hide Shape, Orderly;
      found := None;
      if r.ConnectPacket? {
        var s, done := Connect(sock, r.client, r.flags, r.will);
        out := Some(done);
      } else if r.RefusedPacket? {
        var answer := ConstToHex(2, 0, 0, 5);
        out := Some(Output(-1, [], [answer], []));
      } else if sock !in bySock {
        out := Some(Output(-1, [], [], []));
      } else {
        assert byClient[bySock[sock].clientId] in byClient.Values;
        out, found := HandleFrom(bySock[sock], r);
      }
    }
  }
}
