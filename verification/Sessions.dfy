/** A client session and its sorted list of filters (src/session.c). */
module Sessions {
  import opened Prelude

  ghost predicate Ascending(list: seq<string>)
  {
    forall i, j :: 0 <= i < j < |list| ==> Less(list[i], list[j])
  }

  // ---------- sorting ----------

  lemma InsertedAscends(rest: seq<string>, x: string, k: nat)
    requires Ascending(rest) && k <= |rest| && x !in rest
    requires forall j :: 0 <= j < k ==> Less(rest[j], x)
    requires k < |rest| ==> !Less(rest[k], x)
    ensures Ascending(rest[..k] + [x] + rest[k..])
  {
    var s := rest[..k] + [x] + rest[k..];
    forall i, j | 0 <= i < j < |s|
      ensures Less(s[i], s[j])
    {
      if i == k {
        LessTotal(rest[k], x);
        assert rest[k] in rest;
        if j > k + 1 {
          assert Less(rest[k], rest[j - 1]);
          LessTransitive(x, rest[k], rest[j - 1]);
        }
      }
    }
  }

  /** The C library's `qsort` with `strsort`, on strings that all differ. */
  method SortStrings(list: seq<string>) returns (r: seq<string>)
    requires NoDuplicates(list)
    ensures Ascending(r) && forall x :: x in r <==> x in list
  {
    if list == [] {
      return [];
    }
    var x := list[0];
    assert forall i :: 0 <= i < |list[1..]| ==> list[1..][i] == list[i + 1];
    assert list == [x] + list[1..];
    var rest := SortStrings(list[1..]);
    var k := 0;
    while k < |rest| && Less(rest[k], x)
      invariant 0 <= k <= |rest|
      invariant forall j :: 0 <= j < k ==> Less(rest[j], x)
    {
      k := k + 1;
    }
    InsertedAscends(rest, x, k);
    r := rest[..k] + [x] + rest[k..];
    assert rest == rest[..k] + rest[k..];
  }

  lemma AscendingIsDistinct(list: seq<string>)
    requires Ascending(list)
    ensures NoDuplicates(list)
  {
    forall i, j | 0 <= i < j < |list|
      ensures list[i] != list[j]
    {
      LessAsymmetric(list[i], list[j]);
    }
  }

  lemma ErasedAscends(list: seq<string>, k: nat)
    requires Ascending(list) && k < |list|
    ensures var r := list[..k] + list[k + 1..];
      Ascending(r) && NoDuplicates(r) && forall x :: x in r <==> x in list && x != list[k]
  {
    var r := list[..k] + list[k + 1..];
    assert forall i :: 0 <= i < |r| ==> r[i] == list[if i < k then i else i + 1];
    AscendingIsDistinct(list);
    AscendingIsDistinct(r);
    forall x | x in list && x != list[k]
      ensures x in r
    {
      var i :| 0 <= i < |list| && list[i] == x;
      assert r[if i < k then i else i - 1] == x;
    }
  }

  // ---------- the session ----------

  /** The name "$" alone is excluded: scanning it reads past its terminator. */
  type TopicName = s: string | s != "$" witness ""

  /** The message to be published when the session ends. */
  datatype Will = Will(topic: TopicName, payload: string, qos: int)

  class Session {
    const sock: int
    const clientId: string
    const clean: bool
    const will: Option<Will>
    var topics: seq<string>

    constructor (sock: int, clientId: string, clean: bool, will: Option<Will>)
      ensures this.sock == sock && this.clientId == clientId && this.clean == clean && this.will == will && topics == []
    {
      this.sock, this.clientId, this.clean, this.will := sock, clientId, clean, will;
      topics := [];
    }

    /** `utarray_find`: a binary search in the order the array is sorted by. */
    method FindTopic(t: string) returns (found: Option<nat>)
      requires Ascending(topics)
      ensures found.Some? ==> found.value < |topics| && topics[found.value] == t
      ensures found.None? ==> t !in topics
    {
      var l, u := 0, |topics|;
      while l < u
        invariant 0 <= l <= u <= |topics|
        invariant forall i :: 0 <= i < l ==> Less(topics[i], t)
        invariant forall i :: u <= i < |topics| ==> Less(t, topics[i])
      {
        var idx := (l + u) / 2;
        var elt := topics[idx];
        LessTotal(t, elt);
        if Less(t, elt) {
          forall i | idx < i < u ensures Less(t, topics[i]) {
            LessTransitive(t, elt, topics[i]);
          }
          u := idx;
        } else if Less(elt, t) {
          forall i | l <= i < idx ensures Less(topics[i], t) {
            LessTransitive(topics[i], elt, t);
          }
          l := idx + 1;
        } else {
          return Some(idx);
        }
      }
      found := None;
      LessIrreflexive(t);
    }

    /** `session_subscribe_topic`. */
    method SubscribeTopic(t: string)
      requires Ascending(topics)
      modifies this`topics
      ensures Ascending(topics) && forall x :: x in topics <==> x in old(topics) || x == t
    {
      AscendingIsDistinct(topics);
      var found := FindTopic(t);
      if found.None? {
        topics := topics + [t];
      }
      topics := SortStrings(topics);
    }

    /** `session_unsubscribe_topic`. */
    method UnsubscribeTopic(t: string)
      requires Ascending(topics)
      modifies this`topics
      ensures Ascending(topics) && forall x :: x in topics <==> x in old(topics) && x != t
    {
      AscendingIsDistinct(topics);
      var found := FindTopic(t);
      if found.Some? {
        ErasedAscends(topics, found.value);
        topics := topics[..found.value] + topics[found.value + 1..];
      }
      topics := SortStrings(topics);
    }
  }
}
