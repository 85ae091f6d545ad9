/** The doubly linked list operations of 3rd/uthash/utlist.h: the head's `prev` is the tail, the
    tail's `next` is NULL. */
module DList {
  import opened Prelude
  import opened Links
  import opened MergeSort
  import opened Buckets
  import ListSort

  ghost predicate IsDl(head: Item?, s: seq<Item>)
    reads s`next, s`prev
  {
    ListSort.IsList(ListSort.Doubly, head, s)
  }

  function InsertAt(s: seq<Item>, k: nat, x: Item): seq<Item>
    requires k <= |s|
  {
    s[..k] + [x] + s[k..]
  }

  /** DL_PREPEND. */
  method Prepend(head: Item?, add: Item, ghost s: seq<Item>) returns (head': Item)
    requires IsDl(head, s) && add !in s
    modifies s`prev, add`prev, add`next
    ensures IsDl(head', [add] + s)
  {
    add.next := head;
    if head != null {
      add.prev := head.prev;
      head.prev := add;
    } else {
      add.prev := add;
    }
    head' := add;
  }

  /** DL_APPEND. */
  method Append(head: Item?, add: Item, ghost s: seq<Item>) returns (head': Item)
    requires IsDl(head, s) && add !in s
    modifies s`prev, s`next, add`prev, add`next
    ensures IsDl(head', s + [add])
  {
    assert s != [] ==> s[0] in s && s[|s| - 1] in s;
    if head != null {
      add.prev := head.prev;
      head.prev.next := add;
      head.prev := add;
      add.next := null;
      head' := head;
    } else {
      head' := add;
      head'.prev := head';
      head'.next := null;
    }
  }

  /** A list is well formed if its links lead from each item to the next and back. */
  lemma IsDlOf(head: Item, d: seq<Item>)
    requires d != [] && d[0] == head && NoDuplicates(d) && Forward(d) && Backward(d)
    requires d[|d| - 1].next == null && d[0].prev == d[|d| - 1]
    ensures IsDl(head, d)
  {
  }

  lemma ConcatIsDistinct(s: seq<Item>, t: seq<Item>)
    requires NoDuplicates(s) && NoDuplicates(t) && Disjoint(s, t)
    ensures NoDuplicates(s + t)
  {
    var c := s + t;
    assert forall i :: 0 <= i < |c| ==>
      if i < |s| then c[i] == s[i] && s[i] in s else c[i] == t[i - |s|] && t[i - |s|] in t;
  }

  /** DL_CONCAT. */
  method Concat(head1: Item?, head2: Item?, ghost s: seq<Item>, ghost t: seq<Item>) returns (head': Item?)
    requires IsDl(head1, s) && IsDl(head2, t) && Disjoint(s, t)
    modifies s`prev, s`next, t`prev
    ensures IsDl(head', s + t)
  {
    assert s != [] ==> s[0] in s && s[|s| - 1] in s;
    assert t != [] ==> t[0] in t && t[|t| - 1] in t;
    assert forall i :: 0 <= i < |t| ==> t[i] in t;
    assert forall i :: 0 <= i < |s| ==> s[i] in s;
    ConcatIsDistinct(s, t);
    head' := head1;
    if head2 != null {
      if head1 != null {
        var tmp := head2.prev;
        head2.prev := head1.prev;
        head1.prev.next := head2;
        head1.prev := tmp;
      } else {
        head' := head2;
      }
    }
    ghost var c := s + t;
    assert forall i :: 0 <= i < |c| ==> c[i] == if i < |s| then s[i] else t[i - |s|];
    if c != [] {
      IsDlOf(head', c);
    }
  }

  lemma Neighbours(head: Item?, s: seq<Item>, k: nat)
    requires IsDl(head, s) && k < |s|
    ensures s[k] in s && s[0] in s && s[|s| - 1] in s && head == s[0]
    ensures s[k].next == (if k + 1 < |s| then s[k + 1] else null)
    ensures s[k].prev == (if k > 0 then s[k - 1] else s[|s| - 1])
    ensures (k + 1 < |s| ==> s[k + 1] in s) && (k > 0 ==> s[k - 1] in s)
  {
  }

  /** DL_DELETE. */
  method Delete(head: Item?, del: Item, ghost s: seq<Item>, ghost k: nat) returns (head': Item?)
    requires IsDl(head, s) && k < |s| && s[k] == del
    modifies s`prev, s`next
    ensures IsDl(head', Without(s, k))
  {
    Neighbours(head, s, k);
    Neighbours(head, s, 0);
    ghost var d := Without(s, k);
    assert forall i :: 0 <= i < |d| ==> d[i] == s[if i < k then i else i + 1];
    head' := head;
    if del.prev == del {
      head' := null;
    } else if del == head {
      del.next.prev := del.prev;
      head' := del.next;
    } else {
      del.prev.next := del.next;
      if del.next != null {
        del.next.prev := del.prev;
      } else {
        head.prev := del.prev;
      }
    }
  }

  /** DL_REPLACE_ELEM. */
  method Replace(head: Item, el: Item, add: Item, ghost s: seq<Item>, ghost k: nat) returns (head': Item)
    requires IsDl(head, s) && k < |s| && s[k] == el && add !in s
    modifies s`prev, s`next, add`prev, add`next
    ensures IsDl(head', s[k := add])
  {
    Neighbours(head, s, k);
    head' := head;
    if head == el {
      head' := add;
      add.next := el.next;
      if el.next == null {
        add.prev := add;
      } else {
        add.prev := el.prev;
        add.next.prev := add;
      }
    } else {
      add.next := el.next;
      add.prev := el.prev;
      add.prev.next := add;
      if el.next == null {
        head.prev := add;
      } else {
        add.next.prev := add;
      }
    }
  }

  lemma InsertAtIs(s: seq<Item>, k: nat, add: Item)
    requires NoDuplicates(s) && add !in s && k <= |s|
    ensures var d := InsertAt(s, k, add);
      && NoDuplicates(d) && |d| == |s| + 1
      && forall i :: 0 <= i < |d| ==> d[i] == if i < k then s[i] else if i == k then add else s[i - 1]
  {
    assert forall i :: 0 <= i < |s| ==> s[i] in s;
  }

  /** The first half of DL_PREPEND_ELEM. */
  method LinkBefore(head: Item, el: Item, add: Item, ghost s: seq<Item>, ghost k: nat) returns (head': Item)
    requires IsDl(head, s) && add !in s && k < |s| && el == s[k]
    modifies s`prev, s`next, add`prev, add`next
    ensures IsDl(head', InsertAt(s, k, add))
  {
    InsertAtIs(s, k, add);
    Neighbours(head, s, k);
    if k > 0 {
      Neighbours(head, s, k - 1);
    }
    add.next := el;
    add.prev := el.prev;
    el.prev := add;
    if head == el {
      head' := add;
    } else {
      add.prev.next := add;
      head' := head;
    }
    ghost var d := InsertAt(s, k, add);
    forall i | 0 <= i < |d| - 1
      ensures d[i].next == d[i + 1] && d[i + 1].prev == d[i]
    {
      if i + 1 < k {
        assert s[i] in s && s[i + 1] in s;
      } else if k < i {
        assert s[i - 1] in s && s[i] in s;
      }
    }
    IsDlOf(head', d);
  }

  /** DL_PREPEND_ELEM: before an element, or at the end. */
  method PrependElem(head: Item?, el: Item?, add: Item, ghost s: seq<Item>, ghost k: nat) returns (head': Item)
    requires IsDl(head, s) && add !in s && k <= |s| && el == (if k < |s| then s[k] else null)
    modifies s`prev, s`next, add`prev, add`next
    ensures IsDl(head', InsertAt(s, k, add))
  {
    if el != null {
      head' := LinkBefore(head, el, add, s, k);
    } else {
      head' := Append(head, add, s);
      assert InsertAt(s, k, add) == s + [add];
    }
  }

  /** The first half of DL_APPEND_ELEM. */
  method LinkBehind(head: Item, el: Item, add: Item, ghost s: seq<Item>, ghost k: nat)
    requires IsDl(head, s) && add !in s && 0 < k <= |s| && el == s[k - 1]
    modifies s`prev, s`next, add`prev, add`next
    ensures IsDl(head, InsertAt(s, k, add))
  {
    InsertAtIs(s, k, add);
    Neighbours(head, s, k - 1);
    if k < |s| {
      Neighbours(head, s, k);
    }
    add.next := el.next;
    add.prev := el;
    el.next := add;
    if add.next != null {
      add.next.prev := add;
    } else {
      head.prev := add;
    }
    ghost var d := InsertAt(s, k, add);
    forall i | 0 <= i < |d| - 1
      ensures d[i].next == d[i + 1] && d[i + 1].prev == d[i]
    {
      if i + 1 < k {
        assert s[i] in s && s[i + 1] in s;
      } else if k < i {
        assert s[i - 1] in s && s[i] in s;
      }
    }
    IsDlOf(head, d);
  }

  /** DL_APPEND_ELEM: behind an element, or at the front. */
  method AppendElem(head: Item?, el: Item?, add: Item, ghost s: seq<Item>, ghost k: nat) returns (head': Item)
    requires IsDl(head, s) && add !in s && k <= |s| && el == (if k > 0 then s[k - 1] else null)
    modifies s`prev, s`next, add`prev, add`next
    ensures IsDl(head', InsertAt(s, k, add))
  {
    if el != null {
      LinkBehind(head, el, add, s, k);
      head' := head;
    } else {
      head' := Prepend(head, add, s);
      assert InsertAt(s, k, add) == [add] + s;
    }
  }

  // ---------- in-order insertion ----------

  /** How many elements come before the first one that does not compare below `like`. */
  function BelowCount(s: seq<Item>, like: Item, cmp: Compare<Item>): (k: nat)
    ensures k <= |s| && (forall i :: 0 <= i < k ==> cmp(s[i], like) < 0) && (k < |s| ==> cmp(s[k], like) >= 0)
  {
    if s == [] || cmp(s[0], like) >= 0 then 0 else 1 + BelowCount(s[1..], like, cmp)
  }

  lemma {:induction false} BelowCountIs(s: seq<Item>, like: Item, cmp: Compare<Item>, k: nat)
    requires k <= |s| && (forall i :: 0 <= i < k ==> cmp(s[i], like) < 0) && (k < |s| ==> cmp(s[k], like) >= 0)
    ensures BelowCount(s, like, cmp) == k
  {
    if k == 0 {
    } else {
      BelowCountIs(s[1..], like, cmp, k - 1);
    }
  }

  /** DL_LOWER_BOUND. */
  method LowerBound(head: Item?, like: Item, cmp: Compare<Item>, ghost s: seq<Item>) returns (elt: Item?)
    requires IsDl(head, s)
    ensures var k := BelowCount(s, like, cmp); elt == if k > 0 then s[k - 1] else null
  {
    if head == null || cmp(head, like) >= 0 {
      return null;
    }
    elt := head;
    ghost var i := 0;
    while elt.next != null && cmp(elt.next, like) < 0
      invariant 0 <= i < |s| && elt == s[i] && forall j :: 0 <= j <= i ==> cmp(s[j], like) < 0
      decreases |s| - i
    {
      Neighbours(head, s, i);
      elt := elt.next;
      i := i + 1;
    }
    Neighbours(head, s, i);
    BelowCountIs(s, like, cmp, i + 1);
  }

  /** DL_INSERT_INORDER. */
  method InsertInOrder(head: Item?, add: Item, cmp: Compare<Item>, ghost s: seq<Item>) returns (head': Item)
    requires IsDl(head, s) && add !in s
    modifies s`prev, s`next, add`prev, add`next
    ensures IsDl(head', InsertAt(s, BelowCount(s, add, cmp), add))
  {
    if head != null {
      var elt := LowerBound(head, add, cmp, s);
      head' := AppendElem(head, elt, add, s, BelowCount(s, add, cmp));
    } else {
      head' := add;
      head'.prev := head';
      head'.next := null;
    }
  }

  /** Exchanging the arguments reverses the comparison, as with `strcmp`. */
  ghost predicate Reversible(s: seq<Item>, cmp: Compare<Item>)
  {
    forall x, y :: x in s && y in s && cmp(x, y) >= 0 ==> cmp(y, x) <= 0
  }

  lemma BelowTheRest(s: seq<Item>, add: Item, cmp: Compare<Item>, k: nat, j: nat)
    requires MergeSort.Sorted(s, cmp) && TotalPreorder(s + [add], cmp) && Reversible(s + [add], cmp)
    requires k <= j < |s| && cmp(s[k], add) >= 0
    ensures cmp(add, s[j]) <= 0
  {
    var all := s + [add];
    assert all[|s|] == add && all[k] == s[k] && all[j] == s[j];
    assert add in all && s[k] in all && s[j] in all;
    assert cmp(add, s[k]) <= 0;
    assert k < j ==> cmp(s[k], s[j]) <= 0;
  }

  lemma InsertionIsSorted(s: seq<Item>, add: Item, cmp: Compare<Item>, k: nat)
    requires MergeSort.Sorted(s, cmp) && k <= |s|
    requires (forall i :: 0 <= i < k ==> cmp(s[i], add) <= 0) && forall j :: k <= j < |s| ==> cmp(add, s[j]) <= 0
    ensures MergeSort.Sorted(InsertAt(s, k, add), cmp)
  {
    var d := InsertAt(s, k, add);
    assert forall i :: 0 <= i < |d| ==> d[i] == if i < k then s[i] else if i == k then add else s[i - 1];
  }

  /** A sorted list stays sorted, and the new element stands in front of those equal to it. */
  lemma InsertionKeepsOrder(s: seq<Item>, add: Item, cmp: Compare<Item>)
    requires MergeSort.Sorted(s, cmp) && TotalPreorder(s + [add], cmp) && Reversible(s + [add], cmp)
    ensures var k := BelowCount(s, add, cmp);
      && MergeSort.Sorted(InsertAt(s, k, add), cmp)
      && forall i :: 0 <= i < |s| && cmp(s[i], add) == 0 ==> i >= k
  {
    var k := BelowCount(s, add, cmp);
    forall j | k <= j < |s|
      ensures cmp(add, s[j]) <= 0
    {
      BelowTheRest(s, add, cmp, k, j);
    }
    InsertionIsSorted(s, add, cmp, k);
  }
}
