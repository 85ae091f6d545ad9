/** The packet identifiers of src/session.c and what becomes of them when the two bytes sent with a
    message come back in an acknowledgement (src/event.c). */
module PacketIds {
  import opened Prelude
  import opened Lengths

  datatype Message = Message(client: string, topic: string, qos: int, payload: string)
  datatype Slot = Free | Held(message: Message)

  const SLOTS: nat := 65536
  const LAST_ID: nat := 65535

  type Slots = s: seq<Slot> | |s| == SLOTS witness seq(SLOTS, _ => Free)

  /** The identifiers in use. Slot 0 exists but is never given out. */
  ghost function InFlight(s: Slots): set<nat>
  {
    set i: nat | 1 <= i < SLOTS && s[i].Held?
  }

  /** The first free slot from `i` on, or the last one if there is none. */
  function FreeFrom(s: Slots, i: nat): (id: nat)
    requires 1 <= i <= LAST_ID
    ensures i <= id <= LAST_ID
    ensures forall j :: i <= j < id ==> s[j].Held?
    ensures s[id].Free? || id == LAST_ID
    decreases LAST_ID - i
  {
    if s[i].Free? || i == LAST_ID then i else FreeFrom(s, i + 1)
  }

  function NextId(s: Slots): nat
  {
    FreeFrom(s, 1)
  }

  /** The table after an add: a full table is left alone. */
  function WithMessage(s: Slots, m: Message): Slots
  {
    if s[NextId(s)].Free? then s[NextId(s) := Held(m)] else s
  }

  class PacketTable {
    const slots: array<Slot>

    ghost predicate Valid()
    {
      slots.Length == SLOTS
    }

    constructor ()
      ensures Valid() && fresh(slots) && forall i :: 0 <= i < SLOTS ==> slots[i].Free?
    {
      slots := new Slot[SLOTS](_ => Free);
    }

    /** `session_publish_add`: the least free identifier. When there is none the last one is
        returned all the same, and nothing is stored. */
    method Add(m: Message) returns (id: nat)
      requires Valid()
      modifies slots
      ensures Valid() && id == NextId(old(slots[..])) && slots[..] == WithMessage(old(slots[..]), m)
      ensures 1 <= id <= 65535 && forall j :: 1 <= j < id ==> old(slots[j]).Held?
      ensures if old(slots[id]).Free? then slots[id] == Held(m) else id == 65535 && slots[id] == old(slots[id])
      ensures forall j :: 0 <= j < SLOTS && j != id ==> slots[j] == old(slots[j])
    {
      var i := 0;
      id := 0;
      while i < LAST_ID
        invariant 0 <= i <= LAST_ID && id == i && slots[..] == old(slots[..])
        invariant forall j :: 1 <= j <= i ==> slots[j].Held?
      {
        i := i + 1;
        id := i;
        if slots[i].Free? {
          NextIdIs(slots[..], i);
          slots[i] := Held(m);
          return;
        }
      }
      NextIdIs(slots[..], i);
    }

    /** `session_publish_delete` of an occupied slot. */
    method Delete(id: nat)
      requires Valid() && id < SLOTS && slots[id].Held?
      modifies slots
      ensures Valid() && slots[..] == old(slots[..])[id := Free]
    {
      slots[id] := Free;
    }
  }

  lemma NextIdIs(s: Slots, id: nat)
    requires 1 <= id <= LAST_ID && (forall j :: 1 <= j < id ==> s[j].Held?) && (s[id].Free? || id == LAST_ID)
    ensures NextId(s) == id
  {
  }

  // ---------- how large an identifier can get ----------

  lemma {:induction false} CountUpTo(n: nat) returns (all: set<nat>)
    ensures (forall i :: i in all <==> 1 <= i <= n) && |all| == n
  {
    if n == 0 {
      all := {};
    } else {
      all := CountUpTo(n - 1);
      all := all + {n};
    }
  }

  lemma SubsetSize(a: set<nat>, b: set<nat>)
    requires a <= b
    ensures |a| <= |b| && (|a| == |b| ==> a == b)
  {
    assert b == a + (b - a);
  }

  /** An identifier never exceeds the number of messages in flight by more than one. */
  lemma IdsStayLow(s: Slots)
    ensures NextId(s) <= |InFlight(s)| + 1
    ensures s[NextId(s)].Held? <==> |InFlight(s)| == LAST_ID
  {
    var id := NextId(s);
    var below := CountUpTo(id - 1);
    SubsetSize(below, InFlight(s));
    var all := CountUpTo(LAST_ID);
    assert InFlight(s) <= all;
    SubsetSize(InFlight(s), all);
    if s[id].Held? {
      assert all <= InFlight(s);
    } else {
      assert id in all && id !in InFlight(s);
    }
  }

  // ---------- whole runs ----------

  /** The messages in the order of sending, the identifiers of those not yet acknowledged, and the
      table. */
  datatype State = State(slots: Slots, sent: seq<Message>, ids: map<nat, nat>)

  datatype Event =
    | Send(message: Message)
    | Ack(serial: nat)   // the receiver of message `serial` sends its two identifier bytes back

  /** The slot that an acknowledgement with the bytes of identifier `id` frees. */
  function FreedBy(id: nat): (slot: nat)
    ensures slot < 128 && (slot == id <==> id < 128)
  {
    MLRoundTrip(id);
    var (m, l) := MLBytes(id);
    StringLen([m, l], 0).value
  }

  ghost predicate CanHappen(st: State, e: Event)
  {
    e.Send? || (e.serial in st.ids && st.slots[FreedBy(st.ids[e.serial])].Held?)
  }

  ghost function Next(st: State, e: Event): State
    requires CanHappen(st, e)
  {
    match e
    case Send(m) => State(WithMessage(st.slots, m), st.sent + [m], st.ids[|st.sent| := NextId(st.slots)])
    case Ack(k) => State(st.slots[FreedBy(st.ids[k]) := Free], st.sent, st.ids - {k})
  }

  ghost predicate IsRun(events: seq<Event>, states: seq<State>)
  {
    && |states| == |events| + 1
    && states[0] == State(seq(SLOTS, _ => Free), [], map[])
    && forall i :: 0 <= i < |events| ==> CanHappen(states[i], events[i]) && states[i + 1] == Next(states[i], events[i])
  }

  /** A run can start, and go on with whatever can happen. */
  lemma RunsGoOn(events: seq<Event>, states: seq<State>, e: Event)
    ensures IsRun([], [State(seq(SLOTS, _ => Free), [], map[])])
    ensures IsRun(events, states) && CanHappen(states[|events|], e) ==>
      IsRun(events + [e], states + [Next(states[|events|], e)])
  {
  }

  const SAFE: nat := 127

  ghost predicate Injective(ids: map<nat, nat>)
  {
    forall j, k :: j in ids && k in ids && ids[j] == ids[k] ==> j == k
  }

  ghost predicate OwnSlots(slots: Slots, sent: seq<Message>, ids: map<nat, nat>)
  {
    forall k :: k in ids ==> k < |sent| && ids[k] < SLOTS && slots[ids[k]] == Held(sent[k])
  }

  /** Each pending message has a slot of its own, under its own identifier, and nothing else is in
      the table. */
  ghost predicate InStep(st: State)
  {
    && OwnSlots(st.slots, st.sent, st.ids)
    && Injective(st.ids) && InFlight(st.slots) == st.ids.Values
  }

  ghost predicate LowIds(st: State)
  {
    forall k :: k in st.ids ==> 1 <= st.ids[k] <= SAFE
  }

  lemma Without(ids: map<nat, nat>, k: nat)
    requires Injective(ids) && k in ids
    ensures var rest := ids - {k};
      Injective(rest) && rest.Values == ids.Values - {ids[k]} && |rest| == |ids| - 1
  {
    var rest := ids - {k};
    assert rest.Keys == ids.Keys - {k};
    forall v
      ensures v in rest.Values <==> v in ids.Values && v != ids[k]
    {
      if v in ids.Values && v != ids[k] {
        var j :| j in ids && ids[j] == v;
        assert j in rest;
      }
    }
  }

  lemma {:induction false} AsManyIds(ids: map<nat, nat>)
    requires Injective(ids)
    ensures |ids.Values| == |ids|
    decreases |ids|
  {
    if ids == map[] {
    } else {
      var k :| k in ids;
      Without(ids, k);
      AsManyIds(ids - {k});
      assert ids.Values == (ids - {k}).Values + {ids[k]};
    }
  }

  lemma IdsOfNext(ids: map<nat, nat>, k: nat, v: nat)
    requires Injective(ids) && k !in ids && v !in ids.Values
    ensures Injective(ids[k := v]) && ids[k := v].Values == ids.Values + {v}
  {
    forall x | x in ids.Values
      ensures x in ids[k := v].Values
    {
      var j :| j in ids && ids[j] == x;
      assert ids[k := v][j] == x;
    }
    assert ids[k := v][k] == v;
  }

  lemma InFlightOfNext(s: Slots, id: nat, m: Message)
    requires 1 <= id < SLOTS && s[id].Free?
    ensures InFlight(s[id := Held(m)]) == InFlight(s) + {id} && id !in InFlight(s)
  {
  }

  lemma OwnSlotsOfNext(slots: Slots, sent: seq<Message>, ids: map<nat, nat>, id: nat, m: Message)
    requires OwnSlots(slots, sent, ids) && id < SLOTS && slots[id].Free?
    ensures OwnSlots(slots[id := Held(m)], sent + [m], ids[|sent| := id])
  {
  }

  lemma SendKeepsStep(st: State, m: Message)
    requires InStep(st) && LowIds(st) && |st.ids| < SAFE
    ensures InStep(Next(st, Send(m))) && LowIds(Next(st, Send(m)))
  {
    var id := NextId(st.slots);
    AsManyIds(st.ids);
    IdsStayLow(st.slots);
    InFlightOfNext(st.slots, id, m);
    IdsOfNext(st.ids, |st.sent|, id);
    OwnSlotsOfNext(st.slots, st.sent, st.ids, id, m);
  }

  lemma OwnSlotsWithout(slots: Slots, sent: seq<Message>, ids: map<nat, nat>, k: nat)
    requires OwnSlots(slots, sent, ids) && Injective(ids) && k in ids
    ensures OwnSlots(slots[ids[k] := Free], sent, ids - {k})
  {
  }

  /** An acknowledgement frees the slot of the message it belongs to. */
  lemma AckKeepsStep(st: State, k: nat)
    requires InStep(st) && LowIds(st) && k in st.ids
    ensures CanHappen(st, Ack(k)) && InStep(Next(st, Ack(k))) && LowIds(Next(st, Ack(k)))
    ensures Next(st, Ack(k)).slots == st.slots[st.ids[k] := Free]
  {
    var id := st.ids[k];
    Without(st.ids, k);
    OwnSlotsWithout(st.slots, st.sent, st.ids, k);
    InFlightWithout(st.slots, id);
    hide InFlight, OwnSlots, Injective;
    assert OwnSlots(st.slots, st.sent, st.ids);
  }

  lemma InFlightWithout(s: Slots, id: nat)
    requires 1 <= id < SLOTS
    ensures InFlight(s[id := Free]) == InFlight(s) - {id}
  {
  }

  /** In every run with never more than 127 messages in flight no two of them share an identifier
      and every acknowledgement frees exactly its own message's slot. */
  lemma {:induction false} RunsStayInStep(events: seq<Event>, states: seq<State>, n: nat)
    requires IsRun(events, states) && n <= |events|
    requires forall i :: 0 <= i <= n ==> |states[i].ids| <= SAFE
    ensures InStep(states[n]) && LowIds(states[n])
    ensures n < |events| && events[n].Ack? ==>
      states[n + 1].slots == states[n].slots[states[n].ids[events[n].serial] := Free]
  {
    if n == 0 {
      assert InFlight(states[0].slots) == {};
    } else {
      RunsStayInStep(events, states, n - 1);
      var st, e := states[n - 1], events[n - 1];
      if e.Send? {
        assert |st.sent| !in st.ids;
        assert states[n].ids.Keys == st.ids.Keys + {|st.sent|};
        SendKeepsStep(st, e.message);
      } else {
        AckKeepsStep(st, e.serial);
      }
    }
    if n < |events| && events[n].Ack? {
      AckKeepsStep(states[n], events[n].serial);
    }
  }

  /** One message more is one too many: with 127 in flight the next one gets identifier 128, and its
      acknowledgement frees the slot of the message that holds identifier 1. */
  lemma OneTooMany(st: State, m: Message)
    requires InStep(st) && LowIds(st) && |st.ids| == SAFE
    ensures var more, k := Next(st, Send(m)), |st.sent|;
      && more.ids[k] == 128 && more.slots[128] == Held(m)
      && (exists j :: j in st.ids && st.ids[j] == 1)
      && CanHappen(more, Ack(k)) && Next(more, Ack(k)).slots == more.slots[1 := Free]
  {
    AsManyIds(st.ids);
    var low := CountUpTo(SAFE);
    assert InFlight(st.slots) <= low;
    SubsetSize(InFlight(st.slots), low);
    forall j: nat | 1 <= j < 128
      ensures st.slots[j].Held?
    {
      assert j in low && j in InFlight(st.slots);
    }
    assert 128 !in InFlight(st.slots);
    NextIdIs(st.slots, 128);
    assert MLBytes(128) == (128, 1) && FreedBy(128) == 1;
    assert 1 in low && 1 in st.ids.Values;
  }
}
