/** The subscriber arrays that hang off the trie (src/filtering.c): insertion with
    `deduplication`, and deletion through a binary search whose comparator has the
    opposite sign of the one the array is sorted by. */
module SubscriberLists {
  import opened Prelude

  datatype Entry = Entry(maxQos: int, client: string)

  ghost function Clients(list: seq<Entry>): set<string>
  {
    set i | 0 <= i < |list| :: list[i].client
  }

  ghost predicate Sorted(list: seq<Entry>)
  {
    forall i, j :: 0 <= i < j < |list| ==> !Less(list[j].client, list[i].client)
  }

  ghost predicate Strict(list: seq<Entry>)
  {
    forall i, j :: 0 <= i < j < |list| ==> Less(list[i].client, list[j].client)
  }

  /** A list pointer; NULL stands for no subscribers. */
  function Or(list: Option<seq<Entry>>): seq<Entry>
  {
    if list.Some? then list.value else []
  }

  // ---------- counting clients ----------

  lemma {:induction false} ClientsBound(list: seq<Entry>)
    ensures |Clients(list)| <= |list|
  {
    if list == [] {
      assert Clients(list) == {};
    } else {
      var init := list[..|list| - 1];
      ClientsBound(init);
      assert Clients(list) == Clients(init) + {list[|list| - 1].client};
    }
  }

  lemma DuplicateShrinksClients(list: seq<Entry>, k: nat)
    requires k + 1 < |list| && list[k].client == list[k + 1].client
    ensures Clients(list[..k + 1] + list[k + 2..]) == Clients(list)
    ensures |Clients(list)| < |list|
  {
    var rest := list[..k + 1] + list[k + 2..];
    forall c | c in Clients(list)
      ensures c in Clients(rest)
    {
      var i :| 0 <= i < |list| && list[i].client == c;
      var at := if i <= k then i else if i == k + 1 then k else i - 1;
      assert rest[at].client == c;
    }
    ClientsBound(rest);
  }

  lemma {:induction false} StrictHasOneEntryPerClient(list: seq<Entry>)
    requires Strict(list)
    ensures |Clients(list)| == |list|
  {
    if list == [] {
      assert Clients(list) == {};
    } else {
      var last := list[|list| - 1];
      var init := list[..|list| - 1];
      StrictHasOneEntryPerClient(init);
      assert Clients(list) == Clients(init) + {last.client};
      forall i | 0 <= i < |init|
        ensures init[i].client != last.client
      {
        LessAsymmetric(list[i].client, last.client);
      }
    }
  }

  lemma SameElementsSameClients(a: seq<Entry>, b: seq<Entry>)
    requires multiset(a) == multiset(b)
    ensures Clients(a) == Clients(b)
  {
    forall e | e in multiset(a)
      ensures e in a && e in b
    {
    }
    assert forall e :: e in a <==> e in multiset(a);
    assert forall e :: e in b <==> e in multiset(b);
    forall c | c in Clients(a) ensures c in Clients(b) {
      var i :| 0 <= i < |a| && a[i].client == c;
      assert a[i] in b;
    }
    forall c | c in Clients(b) ensures c in Clients(a) {
      var i :| 0 <= i < |b| && b[i].client == c;
      assert b[i] in a;
    }
  }

  // ---------- qsort ----------

  /** The C library's `qsort` with `structsort`. Callers learn only that the result is a sorted
      permutation: which of two equal clients comes first is left open, as in C. */
  method Qsort(list: seq<Entry>) returns (sorted: seq<Entry>)
    ensures Sorted(sorted) && multiset(sorted) == multiset(list)
  {
    if list == [] {
      return [];
    }
    var rest := Qsort(list[1..]);
    var k := 0;
    while k < |rest| && Less(rest[k].client, list[0].client)
      invariant 0 <= k <= |rest|
      invariant forall j :: 0 <= j < k ==> Less(rest[j].client, list[0].client)
    {
      k := k + 1;
    }
    sorted := rest[..k] + [list[0]] + rest[k..];
    InsertedIsSorted(rest, list[0], k);
    assert list == [list[0]] + list[1..];
    assert rest == rest[..k] + rest[k..];
  }

  lemma InsertedIsSorted(rest: seq<Entry>, e: Entry, k: nat)
    requires Sorted(rest) && k <= |rest|
    requires forall j :: 0 <= j < k ==> Less(rest[j].client, e.client)
    requires k < |rest| ==> !Less(rest[k].client, e.client)
    ensures Sorted(rest[..k] + [e] + rest[k..])
  {
    var s := rest[..k] + [e] + rest[k..];
    forall i, j | 0 <= i < j < |s|
      ensures !Less(s[j].client, s[i].client)
    {
      if j == k {
        LessAsymmetric(rest[i].client, e.client);
      } else if i == k {
        var x := rest[j - 1].client;
        if Less(x, e.client) {
          LessTotal(rest[k].client, x);
          if Less(rest[k].client, x) {
            LessTransitive(rest[k].client, x, e.client);
          }
        }
      }
    }
  }

  // ---------- deduplication ----------

  ghost predicate OnceErased(list: seq<Entry>, orig: seq<Entry>)
  {
    |list| == |orig| - 1 && Clients(list) == Clients(orig) && multiset(list) <= multiset(orig)
  }

  lemma EraseOnce(orig: seq<Entry>, t: nat)
    requires t + 1 < |orig| && orig[t].client == orig[t + 1].client
    ensures OnceErased(orig[..t + 1] + orig[t + 2..], orig)
  {
    DuplicateShrinksClients(orig, t);
    assert orig == orig[..t + 1] + [orig[t + 1]] + orig[t + 2..];
  }

  lemma StrictStep(list: seq<Entry>, t: nat)
    requires Sorted(list) && t + 1 < |list| && Strict(list[..t + 1])
    requires list[t].client != list[t + 1].client
    ensures Strict(list[..t + 2])
  {
    var last := list[t + 1].client;
    LessTotal(list[t].client, last);
    forall i | 0 <= i < t + 1
      ensures Less(list[i].client, last)
    {
      if i < t {
        assert Less(list[..t + 1][i].client, list[..t + 1][t].client);
        LessTransitive(list[i].client, list[t].client, last);
      }
    }
    var upTo := list[..t + 2];
    forall i, j | 0 <= i < j < |upTo|
      ensures Less(upTo[i].client, upTo[j].client)
    {
      if j < t + 1 {
        assert Less(list[..t + 1][i].client, list[..t + 1][j].client);
      }
    }
  }

  /** Where the loop of `deduplication` stands: nothing erased yet, the one duplicate erased, or
      a second duplicate met, which it can never get rid of. */
  ghost predicate Progress(orig: seq<Entry>, arr: seq<Entry>, tmp: int, i: int)
  {
    || (i == tmp + 1 && arr == orig)
    || (i == tmp + 2 && OnceErased(arr, orig))
    || Stuck(orig, arr, tmp, i)
  }

  ghost predicate Stuck(orig: seq<Entry>, arr: seq<Entry>, tmp: int, i: int)
  {
    && i >= tmp + 2 && 0 <= tmp && tmp + 1 < |arr|
    && arr[tmp].client == arr[tmp + 1].client
    && |orig| > |Clients(orig)| + 1
  }

  function Erase<T>(s: seq<T>, i: nat): seq<T>
    requires i < |s|
  {
    s[..i] + s[i + 1..]
  }

  lemma EraseKeepsOrder(arr: seq<Entry>, t: nat, i: nat)
    requires Sorted(arr) && t < i < |arr| && Strict(arr[..t + 1])
    ensures Sorted(Erase(arr, i)) && Strict(Erase(arr, i)[..t + 1])
  {
    assert Erase(arr, i)[..t + 1] == arr[..t + 1];
  }

  lemma DuplicateMet(orig: seq<Entry>, arr: seq<Entry>, tmp: nat, i: nat)
    requires Progress(orig, arr, tmp, i)
    requires tmp + 1 < |arr| && arr[tmp].client == arr[tmp + 1].client
    ensures i > tmp
    ensures i >= |arr| ==> |orig| > |Clients(orig)| + 1
    ensures i < |arr| ==> Progress(orig, Erase(arr, i), tmp, i + 1)
  {
    DuplicateShrinksClients(arr, tmp);
    if i == tmp + 1 {
      EraseOnce(orig, tmp);
    }
  }

  /** `deduplication`: the erase index `i` is counted apart from the cursor `tmp`. The first
      erase hits the duplicate; any later one lands past it, and the loop then runs off the end
      of the array (`None`: the destructor is called on no element). So the function completes
      exactly when there is at most one surplus entry, and then it is right. */
  method Deduplication(list: seq<Entry>) returns (r: Option<seq<Entry>>)
    ensures r.Some? <==> |list| <= |Clients(list)| + 1
    ensures r.Some? ==> Strict(r.value) && Clients(r.value) == Clients(list)
    ensures r.Some? ==> multiset(r.value) <= multiset(list)
  {
    var sorted := Qsort(list);
    SameElementsSameClients(sorted, list);
    assert |multiset(sorted)| == |multiset(list)|;
    var arr, tmp, i := sorted, -1, 0;
    while tmp + 1 < |arr|
      invariant -1 <= tmp <= |arr| - 1
      invariant Sorted(arr) && Strict(arr[..tmp + 1])
      invariant Progress(sorted, arr, tmp, i)
      decreases |arr| - tmp
    {
      if 0 <= tmp && arr[tmp + 1].client == arr[tmp].client {
        DuplicateMet(sorted, arr, tmp, i);
        if i >= |arr| {
          return None;
        }
        EraseKeepsOrder(arr, tmp, i);
        arr := Erase(arr, i);
      } else {
        if 0 <= tmp {
          StrictStep(arr, tmp);
        }
        tmp := tmp + 1;
      }
      i := i + 1;
    }
    assert arr[..tmp + 1] == arr;
    StrictHasOneEntryPerClient(arr);
    r := Some(arr);
  }

  // ---------- adding one subscriber ----------

  /** What `utarray_push_back` followed by `deduplication` does to a subscriber list: one entry
      per client, everybody else's entry untouched, the client's own entry the new or the old one
      (`qsort` does not say which of two equal elements comes first). */
  ghost predicate Added(old_: seq<Entry>, new_: seq<Entry>, e: Entry)
  {
    && Strict(new_)
    && Clients(new_) == Clients(old_) + {e.client}
    && (forall x :: x in new_ ==> x in old_ || x == e)
    && (forall x :: x in old_ && x.client != e.client ==> x in new_)
    && (e.client !in Clients(old_) ==> e in new_)
    && new_ != []
  }

  /** Entry by entry: other clients keep exactly theirs, and the client has one, which is the new one if
      it had none before, and otherwise the new or the old one. */
  lemma AddedIsExact(old_: seq<Entry>, new_: seq<Entry>, e: Entry, x: Entry)
    requires Strict(old_) && Added(old_, new_, e)
    ensures x.client != e.client ==> (x in new_ <==> x in old_)
    ensures x.client == e.client && x in new_ ==> x == e || x in old_
    ensures e.client !in Clients(old_) ==> (x.client == e.client && x in new_ <==> x == e)
    ensures exists y :: y in new_ && y.client == e.client
    ensures forall y, z :: y in new_ && z in new_ && y.client == z.client ==> y == z
  {
    assert e.client in Clients(new_);
    var i :| 0 <= i < |new_| && new_[i].client == e.client;
    assert new_[i] in new_;
    forall y, z | y in new_ && z in new_ && y.client == z.client
      ensures y == z
    {
      OneEntryPerClient(new_, y, z);
    }
    if x in old_ {
      var j :| 0 <= j < |old_| && old_[j] == x;
      assert old_[j].client in Clients(old_);
    }
  }

  lemma SmallerSet<T>(a: set<T>, b: set<T>)
    requires a <= b
    ensures |a| <= |b|
  {
    assert b == a + (b - a);
  }

  lemma ClientsOfPushed(list: seq<Entry>, e: Entry)
    ensures Clients(list + [e]) == Clients(list) + {e.client} && |Clients(list)| <= |Clients(list + [e])|
  {
    var pushed := list + [e];
    assert pushed[|list|] == e;
    forall c | c in Clients(list)
      ensures c in Clients(pushed)
    {
      var i :| 0 <= i < |list| && list[i].client == c;
      assert pushed[i].client == c;
    }
    SmallerSet(Clients(list), Clients(pushed));
  }

  method Add(list: seq<Entry>, e: Entry) returns (r: seq<Entry>)
    requires Strict(list)
    ensures Added(list, r, e)
  {
    StrictHasOneEntryPerClient(list);
    ClientsOfPushed(list, e);
    var pushed := list + [e];
    var d := Deduplication(pushed);
    r := d.value;
    forall x | x in r ensures x in list || x == e {
      assert x in multiset(r);
      assert x in multiset(pushed);
    }
    forall x | x in list && (x.client != e.client)
      ensures x in r
    {
      KeptWhenUnique(list, r, e, x);
    }
    if e.client !in Clients(list) {
      assert e.client in Clients(r);
      var i :| 0 <= i < |r| && r[i].client == e.client;
      assert r[i] in list || r[i] == e;
    }
  }

  lemma KeptWhenUnique(list: seq<Entry>, r: seq<Entry>, e: Entry, x: Entry)
    requires Strict(list) && x in list && x.client != e.client
    requires Clients(r) == Clients(list) + {e.client}
    requires forall y :: y in r ==> y in list || y == e
    ensures x in r
  {
    assert x.client in Clients(list);
    var i :| 0 <= i < |r| && r[i].client == x.client;
    assert r[i] in r;
    OneEntryPerClient(list, r[i], x);
  }

  lemma OneEntryPerClient(list: seq<Entry>, x: Entry, y: Entry)
    requires Strict(list) && x in list && y in list && x.client == y.client
    ensures x == y
  {
    var i :| 0 <= i < |list| && list[i] == x;
    var j :| 0 <= j < |list| && list[j] == y;
    LessIrreflexive(x.client);
  }

  // ---------- removing one subscriber ----------

  /** Where the reversed search can still find `client`: only at the first probe. */
  function RemoveAtMiddle(list: seq<Entry>, client: string): (r: seq<Entry>)
  {
    var mid := |list| / 2;
    if list != [] && list[mid].client == client then list[..mid] + list[mid + 1..] else list
  }

  /** `bsearch` with `struct_str_sort`: the halves are taken the wrong way round. */
  method ReversedFind(list: seq<Entry>, client: string) returns (found: Option<nat>)
    requires Strict(list)
    ensures found == if list != [] && list[|list| / 2].client == client then Some(|list| / 2) else None
  {
    var l, u := 0, |list|;
    while l < u
      invariant 0 <= l <= u <= |list|
      invariant (l == 0 && u == |list|)
             || (list != [] && list[|list| / 2].client != client
                 && ((forall i :: l <= i < u ==> Less(client, list[i].client))
                  || (forall i :: l <= i < u ==> Less(list[i].client, client))))
    {
      var idx := (l + u) / 2;
      var elt := list[idx].client;
      LessIrreflexive(client);
      LessTotal(elt, client);
      if Less(elt, client) {         // strcmp(elt, client) < 0
        LessAsymmetric(elt, client);
        forall i | l <= i < idx ensures Less(list[i].client, client) {
          LessTransitive(list[i].client, elt, client);
        }
        u := idx;
      } else if Less(client, elt) {  // strcmp(elt, client) > 0
        forall i | idx < i < u ensures Less(client, list[i].client) {
          LessTransitive(client, elt, list[i].client);
        }
        l := idx + 1;
      } else {
        return Some(idx);
      }
    }
    found := None;
  }

  /** `delete_client_id` on a list that exists. */
  method DeleteClientId(list: seq<Entry>, client: string) returns (r: seq<Entry>)
    requires Strict(list)
    ensures r == RemoveAtMiddle(list, client)
  {
    var find := ReversedFind(list, client);
    if find.Some? {
      r := list[..find.value] + list[find.value + 1..];
    } else {
      r := list;
    }
  }

  /** A subscriber is really removed exactly when it sits in the middle slot of its list; always
      so in a one-entry list. Nobody else is touched either way, and the order is kept. */
  lemma RemovalIsExact(list: seq<Entry>, client: string)
    requires Strict(list)
    ensures var r := RemoveAtMiddle(list, client);
      && Strict(r)
      && (client in Clients(r) <==>
            client in Clients(list) && list[|list| / 2].client != client)
      && (forall x :: x in list && x.client != client ==> x in r)
      && (forall x :: x in r ==> x in list)
  {
    var mid := |list| / 2;
    var r := RemoveAtMiddle(list, client);
    if list != [] && list[mid].client == client {
      forall i | 0 <= i < |list| && i != mid
        ensures list[i].client != client
      {
        LessAsymmetric(list[if i < mid then i else mid].client, list[if i < mid then mid else i].client);
      }
      assert forall i :: 0 <= i < |r| ==> r[i] == list[if i < mid then i else i + 1];
      forall x | x in list && x.client != client ensures x in r {
        var i :| 0 <= i < |list| && list[i] == x;
        assert r[if i < mid then i else i - 1] == x;
      }
    } else if client in Clients(list) {
      assert list != [];
    }
  }

  lemma SingletonIsRemoved(e: Entry)
    ensures RemoveAtMiddle([e], e.client) == []
  {
    assert [e][..0] + [e][1..] == [];
  }
}
