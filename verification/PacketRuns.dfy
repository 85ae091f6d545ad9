/** Whole runs of sending and acknowledging on one packet table (src/session.c:426-475), with the
    identifier bytes that travel to the receiver and back (src/event.c:159-169, 202-229). */
module PacketRuns {
  import opened Prelude
  import opened Lengths
  import opened PacketIds

  /** The bytes sent with each message, in the order of sending. */
  ghost predicate Carried(bytes: seq<(Byte, Byte)>, st: State)
  {
    && |bytes| == |st.sent|
    && forall k :: k in st.ids ==> k < |bytes| && bytes[k] == MLBytes(st.ids[k])
  }

  /** `session_publish_add` and `ML_encode`. */
  method Send(table: PacketTable, m: Message, bytes: seq<(Byte, Byte)>, ghost st: State)
    returns (bytes': seq<(Byte, Byte)>)
    requires table.Valid() && table.slots[..] == st.slots && Carried(bytes, st)
    modifies table.slots
    ensures table.Valid()
    ensures table.slots[..] == Next(st, Event.Send(m)).slots && Carried(bytes', Next(st, Event.Send(m)))
  {
    var id := table.Add(m);
    var msb, lsb := MLEncode(id);
    bytes' := bytes + [(msb, lsb)];
  }

  /** `string_len` on the bytes that come back, and `session_publish_delete`. */
  method Receive(table: PacketTable, k: nat, bytes: seq<(Byte, Byte)>, ghost st: State) returns (id: nat)
    requires table.Valid() && table.slots[..] == st.slots && Carried(bytes, st) && CanHappen(st, Ack(k))
    modifies table.slots
    ensures table.Valid() && id == FreedBy(st.ids[k])
    ensures table.slots[..] == Next(st, Ack(k)).slots && Carried(bytes, Next(st, Ack(k)))
  {
    MLRoundTrip(st.ids[k]);
    var (msb, lsb) := bytes[k];
    var r := ReadStringLen([msb, lsb], 0);
    id := r.value;
    assert table.slots[..][id] == table.slots[id];
    table.Delete(id);
  }

  /** On a new table every run of sends and acknowledgements leads through the states of the abstract
      machine; `freed` names the slot each acknowledgement frees. While never more than 127 messages
      are in flight, that is the slot of its own message. */
  method Replay(events: seq<Event>, ghost states: seq<State>) returns (table: PacketTable, freed: seq<nat>)
    requires IsRun(events, states)
    ensures fresh(table) && table.Valid() && table.slots[..] == states[|events|].slots
    ensures |freed| == |events|
    ensures forall i :: 0 <= i < |events| && events[i].Ack? ==> freed[i] == FreedBy(states[i].ids[events[i].serial])
    ensures (forall i :: 0 <= i <= |events| ==> |states[i].ids| <= SAFE) ==>
      forall i :: 0 <= i < |events| && events[i].Ack? ==> freed[i] == states[i].ids[events[i].serial]
  {
    table := new PacketTable();
    freed := [];
    var bytes: seq<(Byte, Byte)> := [];
    assert table.slots[..] == states[0].slots;
    for i := 0 to |events|
      invariant fresh(table) && fresh(table.slots) && table.Valid()
      invariant table.slots[..] == states[i].slots && Carried(bytes, states[i]) && |freed| == i
      invariant forall j :: 0 <= j < i && events[j].Ack? ==> freed[j] == FreedBy(states[j].ids[events[j].serial])
    {
      match events[i]
      case Send(m) =>
        bytes := Send(table, m, bytes, states[i]);
        freed := freed + [0];
      case Ack(k) =>
        var id := Receive(table, k, bytes, states[i]);
        freed := freed + [id];
    }
    if forall i :: 0 <= i <= |events| ==> |states[i].ids| <= SAFE {
      forall i | 0 <= i < |events| && events[i].Ack?
        ensures freed[i] == states[i].ids[events[i].serial]
      {
        RunsStayInStep(events, states, i);
      }
    }
  }
}
