/** The table of 3rd/uthash/uthash.h: an insertion-order list and bucket chains over the same items. */
module HashTable {
  import opened Prelude
  import opened Links
  import opened Buckets
  import opened Bits
  import opened Expansion
  import opened MergeSort
  import ListSort

  // ---------- the insertion-order list ----------

  ghost predicate Ordered(head: Item?, order: seq<Item>)
    reads order`next, order`prev
  {
    ListSort.IsList(ListSort.HashOrder, head, order)
  }

  /** HASH_APPEND_LIST. */
  method AppendToList(head: Item?, tail: Item, x: Item, ghost order: seq<Item>)
    requires Ordered(head, order) && order != [] && tail == Final(order) && x !in order
    modifies tail`next, x`next, x`prev
    ensures Ordered(head, order + [x])
  {
    x.next := null;
    x.prev := tail;
    tail.next := x;
  }

  /** The list part of HASH_DELETE_HH: first the tail, then the two neighbours. */
  method NewTail(tail: Item?, x: Item, ghost head: Item?, ghost order: seq<Item>, ghost k: nat) returns (tail': Item?)
    requires Ordered(head, order) && tail == Final(order) && k < |order| && order[k] == x && |order| > 1
    ensures tail' == Final(Without(order, k))
  {
    tail' := if x == tail then x.prev else tail;
  }

  lemma WithoutIs<T>(s: seq<T>, k: nat)
    requires NoDuplicates(s) && k < |s|
    ensures var d := Without(s, k);
      NoDuplicates(d) && forall i :: 0 <= i < |d| ==> d[i] == s[if i < k then i else i + 1]
  {
  }

  method RemoveFromList(head: Item?, x: Item, ghost order: seq<Item>, ghost k: nat) returns (head': Item?)
    requires Ordered(head, order) && k < |order| && order[k] == x
    modifies order`next, order`prev
    ensures Ordered(head', Without(order, k))
  {
    assert k > 0 ==> order[k - 1] in order && order[k - 1].next == x;
    assert k + 1 < |order| ==> order[k + 1] in order && order[k + 1].prev == x;
    head' := head;
    if x.prev != null {
      x.prev.next := x.next;
    } else {
      head' := x.next;
    }
    if x.next != null {
      x.next.prev := x.prev;
    }
    ghost var d := Without(order, k);
    WithoutIs(order, k);
    assert Forward(d);
    assert Backward(d);
    assert d != [] ==> d[|d| - 1].next == null && d[0].prev == null;
  }

  lemma Neighbours(head: Item?, order: seq<Item>, k: nat)
    requires Ordered(head, order) && k < |order|
    ensures k + 1 < |order| ==> order[k].next == order[k + 1]
    ensures k > 0 ==> order[k].prev == order[k - 1]
  {
  }

  lemma AloneInList(head: Item?, order: seq<Item>, k: nat)
    requires Ordered(head, order) && k < |order| && order[k].prev == null && order[k].next == null
    ensures k == 0 && |order| == 1
  {
    Neighbours(head, order, k);
  }

  lemma SetOfWithout<T>(s: seq<T>, k: nat)
    requires k < |s| && NoDuplicates(s)
    ensures ToSet(Without(s, k)) == ToSet(s) - {s[k]}
  {
    forall x
      ensures x in Without(s, k) <==> x in s && x != s[k]
    {
      InWithout(s, k, x);
    }
  }

  lemma SameElements<T>(s: seq<T>, t: seq<T>)
    requires multiset(s) == multiset(t)
    ensures |s| == |t| && ToSet(s) == ToSet(t)
  {
    assert |s| == |multiset(s)| && |t| == |multiset(t)|;
    assert forall x :: x in s <==> x in multiset(s);
    assert forall x :: x in t <==> x in multiset(t);
  }

  // ---------- the counts HASH_FSCK compares ----------

  function TotalCount(bs: seq<Bucket>): nat
  {
    if bs == [] then 0 else TotalCount(bs[..|bs| - 1]) + bs[|bs| - 1].count
  }

  lemma {:induction false} SizeOfSet<T>(s: seq<T>)
    requires NoDuplicates(s)
    ensures |ToSet(s)| == |s|
  {
    if s == [] {
    } else {
      var t := s[..|s| - 1];
      assert s == t + [s[|s| - 1]];
      SizeOfSet(t);
      assert ToSet(s) == ToSet(t) + {s[|s| - 1]};
    }
  }

  lemma {:induction false} CountsOfFirst(bs: seq<Bucket>, chains: seq<seq<Item>>, items: set<Item>, i: nat)
    requires Placed(chains, items) && i <= |bs| == |chains|
    requires forall b :: 0 <= b < |bs| ==> bs[b].count == |chains[b]| && NoDuplicates(chains[b])
    ensures TotalCount(bs[..i]) == |InFirst(items, i, |bs|)|
  {
    if i == 0 {
    } else {
      CountsOfFirst(bs, chains, items, i - 1);
      InFirstNext(chains, items, i - 1);
      SizeOfSet(chains[i - 1]);
      assert bs[..i][..i - 1] == bs[..i - 1];
    }
  }

  /** The bucket counts add up to the number of items. */
  lemma CountsAddUp(bs: seq<Bucket>, chains: seq<seq<Item>>, items: set<Item>)
    requires AllOk(bs, chains, items) && Placed(chains, items)
    ensures TotalCount(bs) == |items|
  {
    CountsOfFirst(bs, chains, items, |bs|);
    assert bs[..|bs|] == bs;
    assert InFirst(items, |bs|, |bs|) == items;
  }

  // ---------- the table ----------

  const INITIAL_BUCKETS: nat := 32
  const INITIAL_LOG2: nat := 5
  const CAPACITY_THRESHOLD: nat := 10

  /** When HASH_ADD_TO_BKT asks for an expansion. */
  predicate WantsExpansion(b: Bucket)
  {
    b.count >= (b.expandMult + 1) * CAPACITY_THRESHOLD
  }

  ghost predicate DistinctKeys(items: set<Item>, hash: string -> nat)
  {
    && (forall x, y :: x in items && y in items && x.key == y.key ==> x == y)
    && (forall x :: x in items ==> x.hashv == hash(x.key))
  }

  lemma KeysOfNext(order: seq<Item>, x: Item, hash: string -> nat)
    requires DistinctKeys(ToSet(order), hash) && x.hashv == hash(x.key)
    requires forall y :: y in order ==> y.key != x.key
    ensures DistinctKeys(ToSet(order) + {x}, hash) && ToSet(order + [x]) == ToSet(order) + {x} && x !in order
  {
  }

  lemma NoChains(bs: seq<Bucket>, chains: seq<seq<Item>>)
    requires |bs| == |chains| > 0 && forall b :: 0 <= b < |bs| ==> bs[b] == EMPTY && chains[b] == []
    ensures AllOk(bs, chains, {}) && Placed(chains, {})
  {
  }

  class Table {
    const hash: string -> nat
    var head: Item?
    var buckets: array<Bucket>
    var log2: nat
    var numItems: nat
    var tail: Item?
    var idealChainMaxlen: nat
    var nonidealItems: nat
    var ineffExpands: nat
    var noexpand: bool

    /** The items in insertion order. */
    ghost var order: seq<Item>
    ghost var items: set<Item>
    ghost var chains: seq<seq<Item>>

    /** The bucket side: array size, chains, counts, and the place of each item. */
    ghost predicate Bucketed()
      reads this`buckets, this`log2, this`items, this`chains, buckets, items`hhPrev, items`hhNext
    {
      buckets.Length == Pow2(log2) && AllOk(buckets[..], chains, items) && Placed(chains, items)
    }

    /** The whole invariant that HASH_FSCK checks, the place of each item, and the keys. Without
        items there is no table. */
    ghost predicate Valid()
      reads this, buckets, order`next, order`prev, items`hhPrev, items`hhNext
    {
      && Ordered(head, order) && items == ToSet(order) && DistinctKeys(items, hash)
      && (order != [] ==> tail == Final(order) && numItems == |order| && Bucketed())
    }

    constructor (hash: string -> nat)
      ensures Valid() && order == [] && this.hash == hash && fresh(buckets)
    {
      this.hash, head, tail := hash, null, null;
      buckets := new Bucket[0];
      log2, numItems, idealChainMaxlen, nonidealItems, ineffExpands, noexpand := 0, 0, 0, 0, 0, false;
      order, items, chains := [], {}, [];
    }

    /** HASH_TO_BKT. */
    method ToBucket(hashv: nat) returns (b: nat)
      requires buckets.Length == Pow2(log2)
      ensures b == hashv % buckets.Length
    {
      b := And(hashv, buckets.Length - 1);
      MaskIsModulo(hashv, log2);
    }

    /** HASH_FIND: exactly the item with that key. */
    method Find(key: string) returns (out: Item?)
      requires Valid()
      ensures out != null ==> out in order && out.key == key
      ensures out == null ==> forall x :: x in order ==> x.key != key
    {
      out := null;
      if head != null {
        var hashv := hash(key);
        var b := ToBucket(hashv);
        out := FindInBucket(buckets[b], key, hashv, chains[b]);
        if out != null {
          assert Homed(chains[b], b, |chains|, items);
        } else {
          forall x | x in order
            ensures x.key != key
          {
            assert x in items && x in chains[Slot(x, |chains|)];
          }
        }
      }
    }

    /** HASH_MAKE_TABLE. */
    method MakeTable(x: Item)
      requires items == {}
      modifies this
      ensures fresh(buckets) && buckets.Length == INITIAL_BUCKETS && log2 == INITIAL_LOG2
      ensures numItems == 0 && tail == x
      ensures idealChainMaxlen == nonidealItems == ineffExpands == 0 && !noexpand
      ensures AllOk(buckets[..], chains, {}) && Placed(chains, {})
      ensures forall b :: 0 <= b < INITIAL_BUCKETS ==> buckets[b] == EMPTY
      ensures head == old(head) && order == old(order) && items == old(items)
    {
      hide AllOk, Placed;
      tail, numItems, log2 := x, 0, INITIAL_LOG2;
      idealChainMaxlen, nonidealItems, ineffExpands, noexpand := 0, 0, 0, false;
      buckets := new Bucket[INITIAL_BUCKETS](_ => EMPTY);
      chains := seq(INITIAL_BUCKETS, _ => []);
      NoChains(buckets[..], chains);
    }

    /** The new `ideal_chain_maxlen`, by shift and mask. */
    method IdealLength() returns (ideal: nat)
      requires buckets.Length == Pow2(log2)
      ensures ideal == CeilDiv(numItems, 2 * buckets.Length)
    {
      ideal := ShiftRight(numItems, log2 + 1);
      if And(numItems, buckets.Length * 2 - 1) != 0 {
        ideal := ideal + 1;
      }
      CeilByShift(numItems, log2 + 1);
    }

    /** Swap the buckets in. Two expansions in a row that left more than half the items beyond the
        ideal length stop further expansion. */
    method Install(bs: array<Bucket>, ideal: nat, nonideal: nat, ghost cs: seq<seq<Item>>)
      modifies this`buckets, this`log2, this`chains, this`idealChainMaxlen, this`nonidealItems
      modifies this`ineffExpands, this`noexpand
      ensures buckets == bs && chains == cs && log2 == old(log2) + 1
      ensures idealChainMaxlen == ideal && nonidealItems == nonideal
      ensures ineffExpands == if nonideal > numItems / 2 then old(ineffExpands) + 1 else 0
      ensures noexpand == (old(noexpand) || ineffExpands > 1)
    {
      idealChainMaxlen, nonidealItems := ideal, nonideal;
      log2 := log2 + 1;
      buckets, chains := bs, cs;
      ShiftIsDivision(numItems, 1);
      ineffExpands := if nonidealItems > ShiftRight(numItems, 1) then ineffExpands + 1 else 0;
      if ineffExpands > 1 {
        noexpand := true;
      }
    }

    /** HASH_EXPAND_BUCKETS, which the insertion-order list does not notice. */
    method Expand()
      requires Bucketed()
      modifies this`buckets, this`log2, this`chains, this`idealChainMaxlen, this`nonidealItems
      modifies this`ineffExpands, this`noexpand, items`hhPrev, items`hhNext
      ensures Bucketed() && fresh(buckets) && buckets.Length == 2 * old(buckets.Length)
      ensures idealChainMaxlen == CeilDiv(numItems, buckets.Length)
      ensures nonidealItems == Excess(buckets[..], idealChainMaxlen)
      ensures Multiplied(buckets[..], idealChainMaxlen)
      ensures ineffExpands == if nonidealItems > numItems / 2 then old(ineffExpands) + 1 else 0
      ensures noexpand == (old(noexpand) || ineffExpands > 1)
    {
      hide AllOk, Placed, Excess, Multiplied;
      var ideal := IdealLength();
      var bs, nonideal;
      ghost var cs;
      bs, nonideal, cs := Redistribute(buckets, log2, ideal, chains, items);
      Install(bs, ideal, nonideal, cs);
    }

    method LinkInto(b: nat, x: Item)
      requires Bucketed() && x !in items && b == Slot(x, buckets.Length)
      modifies this`items, this`chains, buckets, x`hhPrev, x`hhNext, items`hhPrev
      ensures Bucketed() && items == old(items) + {x}
      ensures buckets[b].count == old(buckets[b].count) + 1 && buckets[b].expandMult == old(buckets[b].expandMult)
    {
      PushInto(buckets, b, x, chains, items);
      chains, items := chains[b := [x] + chains[b]], items + {x};
    }

    /** What an addition does to the counters of the expansion: nothing, or what an expansion does. */
    twostate predicate Counted(length: nat)
      reads this, buckets
    {
      if length == old(buckets.Length) then
        && idealChainMaxlen == old(idealChainMaxlen) && nonidealItems == old(nonidealItems)
        && ineffExpands == old(ineffExpands) && noexpand == old(noexpand)
      else
        && length > 0 && idealChainMaxlen == CeilDiv(numItems, length)
        && nonidealItems == Excess(buckets[..], idealChainMaxlen)
        && ineffExpands == (if nonidealItems > numItems / 2 then old(ineffExpands) + 1 else 0)
        && noexpand == (old(noexpand) || ineffExpands > 1)
    }

    /** HASH_ADD_TO_BKT: link the item, then expand if its chain has become too long. */
    method AddToBuckets(x: Item)
      requires Bucketed() && x !in items
      modifies this`buckets, this`log2, this`chains, this`items, this`idealChainMaxlen
      modifies this`nonidealItems, this`ineffExpands, this`noexpand
      modifies buckets, x`hhPrev, x`hhNext, items`hhPrev, items`hhNext
      ensures Bucketed() && items == old(items) + {x}
      ensures buckets.Length == if old(WantsExpansion(buckets[Slot(x, buckets.Length)].Grown()) && !noexpand)
                                then 2 * old(buckets.Length) else old(buckets.Length)
      ensures Counted(buckets.Length)
      ensures buckets == old(buckets) || fresh(buckets)
    {
      var b := ToBucket(x.hashv);
      assert b == Slot(x, buckets.Length);
      LinkInto(b, x);
      if WantsExpansion(buckets[b]) && !noexpand {
        Expand();
      }
    }

    /** HASH_ADD_TO_TABLE: count the item and put it into its bucket; the list does not notice. */
    method AddToTable(x: Item)
      requires Ordered(head, order) && Bucketed() && x !in items
      modifies this`buckets, this`log2, this`chains, this`items, this`numItems, this`idealChainMaxlen
      modifies this`nonidealItems, this`ineffExpands, this`noexpand
      modifies buckets, x`hhPrev, x`hhNext, items`hhPrev, items`hhNext
      ensures Ordered(head, order) && Bucketed() && items == old(items) + {x} && numItems == old(numItems) + 1
      ensures buckets.Length == if old(WantsExpansion(buckets[Slot(x, buckets.Length)].Grown()) && !noexpand)
                                then 2 * old(buckets.Length) else old(buckets.Length)
      ensures Counted(buckets.Length)
      ensures buckets == old(buckets) || fresh(buckets)
    {
      hide Bucketed;
      numItems := numItems + 1;
      AddToBuckets(x);
    }

    /** The first HASH_ADD: a list of one item, and a new table around it. */
    method StartList(x: Item)
      requires Valid() && order == []
      modifies this, x`next, x`prev
      ensures Ordered(head, order) && order == [x] && tail == x && numItems == 0
      ensures idealChainMaxlen == nonidealItems == ineffExpands == 0 && !noexpand
      ensures Bucketed() && items == {} && fresh(buckets) && buckets.Length == INITIAL_BUCKETS
      ensures forall b :: 0 <= b < INITIAL_BUCKETS ==> buckets[b] == EMPTY
    {
      x.next := null;
      x.prev := null;
      MakeTable(x);
      head := x;
      order := [x];
    }

    /** HASH_APPEND_LIST. */
    method AddToList(x: Item)
      requires Valid() && order != [] && x !in order
      modifies this`tail, this`order, order`next, x`next, x`prev
      ensures Ordered(head, order) && order == old(order) + [x] && tail == x
    {
      AppendToList(head, tail, x, order);
      tail := x;
      order := order + [x];
    }

    method AddFirst(x: Item)
      requires Valid() && order == [] && x.hashv == hash(x.key)
      modifies this, buckets, x`next, x`prev, x`hhPrev, x`hhNext
      ensures Valid() && order == [x] && fresh(buckets) && buckets.Length == INITIAL_BUCKETS
      ensures idealChainMaxlen == nonidealItems == ineffExpands == 0 && !noexpand
    {
      KeysOfNext([], x, hash);
      StartList(x);
      AddToTable(x);
    }

    method AddNext(x: Item)
      requires Valid() && order != [] && x.hashv == hash(x.key) && forall y :: y in order ==> y.key != x.key
      modifies this, buckets, x`next, x`prev, x`hhPrev, x`hhNext, order`next, items`hhPrev, items`hhNext
      ensures Valid() && order == old(order) + [x]
      ensures Counted(buckets.Length)
      ensures buckets == old(buckets) || fresh(buckets)
      ensures buckets.Length == if old(WantsExpansion(buckets[Slot(x, buckets.Length)].Grown()) && !noexpand)
                                then 2 * old(buckets.Length) else old(buckets.Length)
    {
      hide Bucketed;
      KeysOfNext(order, x, hash);
      AddToList(x);
      AddToTable(x);
    }

    /** HASH_ADD of an item whose key is not in the table. A new table has the initial number of
        buckets; in any other the number doubles exactly when the chain the item joins has become too
        long and expansion is not switched off. */
    method Add(x: Item)
      requires Valid() && x.hashv == hash(x.key) && forall y :: y in order ==> y.key != x.key
      modifies this, buckets, x`next, x`prev, x`hhPrev, x`hhNext, order`next, items`hhPrev, items`hhNext
      ensures Valid() && order == old(order) + [x]
      ensures old(order) == [] ==>
        idealChainMaxlen == nonidealItems == ineffExpands == 0 && !noexpand
      ensures old(order) != [] ==> Counted(buckets.Length)
      ensures buckets == old(buckets) || fresh(buckets)
      ensures old(order) == [] ==> buckets.Length == 32
      ensures old(order) != [] ==>
        var b := old(buckets[x.hashv % buckets.Length]);
        buckets.Length == if b.count + 1 >= 10 * (b.expandMult + 1) && !old(noexpand)
                          then 2 * old(buckets.Length) else old(buckets.Length)
    {
      if head == null {
        AddFirst(x);
      } else {
        AddNext(x);
      }
    }

    /** The count HASH_FSCK takes over the buckets is the number of items. */
    lemma BucketCountsAddUp()
      requires Valid() && order != []
      ensures TotalCount(buckets[..]) == numItems == |order|
    {
      CountsAddUp(buckets[..], chains, items);
      SizeOfSet(order);
    }

    method UnlinkIt(b: nat, x: Item)
      requires Bucketed() && x in items && b == Slot(x, buckets.Length)
      modifies this`items, this`chains, buckets, items`hhPrev, items`hhNext
      ensures Bucketed() && items == old(items) - {x}
    {
      ghost var k: nat :| k < |chains[b]| && chains[b][k] == x;
      UnlinkFrom(buckets, b, x, chains, items, k);
      chains, items := chains[b := Without(chains[b], k)], items - {x};
    }

    method RemoveFromBuckets(x: Item)
      requires Bucketed() && x in items && numItems > 0
      modifies this`items, this`chains, this`numItems, buckets, items`hhPrev, items`hhNext
      ensures Bucketed() && items == old(items) - {x} && numItems == old(numItems) - 1
    {
      var b := ToBucket(x.hashv);
      assert b == Slot(x, buckets.Length);
      UnlinkIt(b, x);
      numItems := numItems - 1;
    }

    method DeleteFromList(x: Item, ghost k: nat)
      requires Valid() && k < |order| && order[k] == x && |order| > 1
      modifies this`head, this`tail, this`order, order`next, order`prev
      ensures order == Without(old(order), k) && Ordered(head, order) && tail == Final(order)
    {
      tail := NewTail(tail, x, head, order, k);
      head := RemoveFromList(head, x, order, k);
      order := Without(order, k);
    }

    /** The bucket half of HASH_DELETE_HH; the list does not notice. */
    method RemoveFromTable(x: Item)
      requires Ordered(head, order) && Bucketed() && x in items && numItems > 0
      modifies this`items, this`chains, this`numItems, buckets, items`hhPrev, items`hhNext
      ensures Ordered(head, order) && Bucketed() && items == old(items) - {x} && numItems == old(numItems) - 1
    {
      RemoveFromBuckets(x);
    }

    /** HASH_DELETE of the only item frees the table. */
    method DeleteLast(x: Item)
      requires Valid() && order == [x]
      modifies this`head, this`order, this`items
      ensures Valid() && order == []
    {
      head := null;
      order, items := [], {};
    }

    method DeleteOther(x: Item, ghost k: nat)
      requires Valid() && k < |order| && order[k] == x && |order| > 1
      modifies this`head, this`tail, this`order, this`items, this`chains, this`numItems
      modifies buckets, order`next, order`prev, items`hhPrev, items`hhNext
      ensures Valid() && order == Without(old(order), k)
    {
      SetOfWithout(order, k);
      DeleteFromList(x, k);
      RemoveFromTable(x);
    }

    /** HASH_DELETE. */
    method Delete(x: Item, ghost k: nat)
      requires Valid() && k < |order| && order[k] == x
      modifies this, buckets, order`next, order`prev, items`hhPrev, items`hhNext
      ensures Valid() && order == Without(old(order), k) && buckets == old(buckets)
    {
      if x.prev == null && x.next == null {
        AloneInList(head, order, k);
        DeleteLast(x);
      } else {
        DeleteOther(x, k);
      }
    }

    /** HASH_ITER: the items in insertion order. */
    method Iterate() returns (visited: seq<Item>)
      requires Valid()
      ensures visited == order
    {
      visited := [];
      var el := head;
      while el != null
        invariant |visited| <= |order| && visited == order[..|visited|] && el == First(order[|visited|..])
        decreases |order| - |visited|
      {
        visited := visited + [el];
        el := el.next;
      }
    }

    method SortList(cmp: Compare<Item>)
      requires Valid() && head != null
      modifies this`head, this`tail, this`order, order`next, order`prev
      ensures Ordered(head, order) && tail == Final(order) && multiset(order) == multiset(old(order))
      ensures TotalPreorder(old(order), cmp) ==> MergeSort.Sorted(order, cmp) && KeepsTies(old(order), order, cmp)
      ensures TotalPreorder(old(order), cmp) ==>
        forall x :: x in old(order) ==> Equals(order, x, cmp) == Equals(old(order), x, cmp)
    {
      ghost var r;
      head, tail, r := ListSort.Sort(ListSort.HashOrder, head, cmp, order);
      order := r;
    }

    /** HASH_SRT: a stable sort of the list; the buckets stay as they are. */
    method SortTable(cmp: Compare<Item>)
      requires Valid()
      modifies this`head, this`tail, this`order, order`next, order`prev
      ensures Valid() && multiset(order) == multiset(old(order))
      ensures TotalPreorder(old(order), cmp) ==> forall i, j :: 0 <= i < j < |order| ==> cmp(order[i], order[j]) <= 0
      ensures TotalPreorder(old(order), cmp) ==> KeepsTies(old(order), order, cmp)
      ensures TotalPreorder(old(order), cmp) ==>
        forall x :: x in old(order) ==> Equals(order, x, cmp) == Equals(old(order), x, cmp)
    {
      if head != null {
        SortList(cmp);
        SameElements(old(order), order);
      }
    }
  }
}
