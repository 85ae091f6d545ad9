/** The bucket chains of 3rd/uthash/uthash.h: HASH_FIND_IN_BKT, HASH_ADD_TO_BKT without the
    expansion, HASH_DEL_IN_BKT, on one bucket and on an array of buckets. */
module Buckets {
  import opened Prelude
  import opened Links

  /** `UT_hash_bucket`. */
  datatype Bucket = Bucket(head: Item?, count: nat, expandMult: nat)
  {
    /** The bucket as far as its counters go after one more item. */
    function Grown(): Bucket
    {
      this.(count := count + 1)
    }
  }

  const EMPTY := Bucket(null, 0, 0)

  /** `hh_next` and `hh_prev` run through a chain in both directions. */
  ghost predicate Chained(c: seq<Item>)
    reads c`hhPrev, c`hhNext
  {
    && (c != [] ==> c[0].hhPrev == null && c[|c| - 1].hhNext == null)
    && (forall i :: 1 <= i < |c| ==> c[i].hhPrev == c[i - 1])
    && (forall i :: 0 <= i < |c| - 1 ==> c[i].hhNext == c[i + 1])
  }

  ghost predicate BucketOk(b: Bucket, c: seq<Item>)
    reads c`hhPrev, c`hhNext
  {
    b.head == First(c) && b.count == |c| && NoDuplicates(c) && Chained(c)
  }

  function Without<T>(c: seq<T>, k: nat): seq<T>
    requires k < |c|
  {
    c[..k] + c[k + 1..]
  }

  // ---------- one bucket ----------

  /** HASH_FIND_IN_BKT. */
  method FindInBucket(b: Bucket, key: string, hashv: nat, ghost c: seq<Item>) returns (out: Item?)
    requires BucketOk(b, c)
    ensures out != null ==> out in c && out.key == key && out.hashv == hashv
    ensures out == null ==> forall x :: x in c ==> !(x.key == key && x.hashv == hashv)
  {
    out := b.head;
    ghost var i := 0;
    while out != null && !(out.hashv == hashv && out.key == key)
      invariant 0 <= i <= |c| && out == First(c[i..])
      invariant forall j :: 0 <= j < i ==> !(c[j].key == key && c[j].hashv == hashv)
      decreases |c| - i
    {
      out := out.hhNext;
      i := i + 1;
    }
  }

  /** The linking part of HASH_ADD_TO_BKT: the new item goes to the front. */
  method PushFront(b: Bucket, x: Item, ghost c: seq<Item>) returns (b': Bucket)
    requires BucketOk(b, c) && x !in c
    modifies x`hhPrev, x`hhNext, c`hhPrev
    ensures BucketOk(b', [x] + c) && b' == Bucket(x, b.count + 1, b.expandMult)
  {
    x.hhNext := b.head;
    x.hhPrev := null;
    if b.head != null {
      b.head.hhPrev := x;
    }
    b' := Bucket(x, b.count + 1, b.expandMult);
  }

  /** HASH_DEL_IN_BKT. */
  method Unlink(b: Bucket, x: Item, ghost c: seq<Item>, ghost k: nat) returns (b': Bucket)
    requires BucketOk(b, c) && k < |c| && c[k] == x
    modifies c`hhPrev, c`hhNext
    ensures BucketOk(b', Without(c, k)) && b'.expandMult == b.expandMult
  {
    assert k > 0 ==> c[k - 1] in c && c[k - 1].hhNext == x;
    assert k + 1 < |c| ==> c[k + 1] in c && c[k + 1].hhPrev == x;
    b' := b.(count := b.count - 1);
    if b.head == x {
      b' := b'.(head := x.hhNext);
    }
    if x.hhPrev != null {
      x.hhPrev.hhNext := x.hhNext;
    }
    if x.hhNext != null {
      x.hhNext.hhPrev := x.hhPrev;
    }
    ghost var d := Without(c, k);
    assert forall i :: 0 <= i < |d| ==> d[i] == c[if i < k then i else i + 1];
  }

  // ---------- an array of buckets ----------

  /** HASH_TO_BKT, by what it computes (`Bits.MaskIsModulo`): the bucket a hash value selects. */
  function Slot(x: Item, buckets: nat): (b: nat)
    requires 0 < buckets
    ensures b < buckets
  {
    x.hashv % buckets
  }

  /** The items of one chain all belong there. */
  ghost predicate Homed(c: seq<Item>, b: nat, buckets: nat, items: set<Item>)
    requires 0 < buckets
  {
    forall x :: x in c ==> x in items && Slot(x, buckets) == b
  }

  /** Every item is in the bucket its hash value selects, and in no other. */
  ghost predicate Placed(chains: seq<seq<Item>>, items: set<Item>)
  {
    && chains != []
    && (forall x :: x in items ==> x in chains[Slot(x, |chains|)])
    && (forall b: nat :: b < |chains| ==> Homed(chains[b], b, |chains|, items))
  }

  /** The buckets hold the chains: links, heads and counts. */
  ghost predicate AllOk(bs: seq<Bucket>, chains: seq<seq<Item>>, items: set<Item>)
    reads items`hhPrev, items`hhNext
  {
    && |bs| == |chains|
    && forall b :: 0 <= b < |bs| ==> (forall x :: x in chains[b] ==> x in items) && BucketOk(bs[b], chains[b])
  }

  lemma PlacedPush(chains: seq<seq<Item>>, items: set<Item>, x: Item)
    requires Placed(chains, items) && x !in items
    ensures var b := Slot(x, |chains|);
      && Placed(chains[b := [x] + chains[b]], items + {x}) && Disjoint([x], chains[b])
      && forall o :: 0 <= o < |chains| ==> x !in chains[o]
  {
  }

  lemma InWithout<T>(c: seq<T>, k: nat, x: T)
    requires k < |c| && NoDuplicates(c)
    ensures x in Without(c, k) <==> x in c && x != c[k]
  {
    if x in c && x != c[k] {
      var i :| 0 <= i < |c| && c[i] == x;
      assert Without(c, k)[if i < k then i else i - 1] == x;
    }
  }

  lemma PlacedCut(chains: seq<seq<Item>>, items: set<Item>, b: nat, k: nat)
    requires Placed(chains, items) && b < |chains| && k < |chains[b]| && NoDuplicates(chains[b])
    ensures Placed(chains[b := Without(chains[b], k)], items - {chains[b][k]})
  {
    var c, chains' := chains[b], chains[b := Without(chains[b], k)];
    forall x
      ensures x in Without(c, k) <==> x in c && x != c[k]
    {
      InWithout(c, k, x);
    }
  }

  lemma ChainsApart(chains: seq<seq<Item>>, items: set<Item>, b: nat, o: nat)
    requires Placed(chains, items) && b < |chains| && o < |chains| && o != b
    ensures Disjoint(chains[o], chains[b])
  {
  }

  method PushInto(bs: array<Bucket>, b: nat, x: Item, ghost chains: seq<seq<Item>>, ghost items: set<Item>)
    requires AllOk(bs[..], chains, items) && Placed(chains, items) && b < bs.Length
    requires x !in items && Slot(x, bs.Length) == b
    modifies bs, x`hhPrev, x`hhNext, items`hhPrev
    ensures var chains' := chains[b := [x] + chains[b]];
      AllOk(bs[..], chains', items + {x}) && Placed(chains', items + {x})
    ensures bs[..] == old(bs[..])[b := Bucket(x, old(bs[b]).count + 1, old(bs[b]).expandMult)]
  {
    PlacedPush(chains, items, x);
    bs[b] := PushFront(bs[b], x, chains[b]);
    forall o | 0 <= o < bs.Length && o != b
      ensures BucketOk(bs[o], chains[o])
    {
      ChainsApart(chains, items, b, o);
      assert old(BucketOk(bs[o], chains[o]));
      assert forall i :: 0 <= i < |chains[o]| ==> chains[o][i] in chains[o];
    }
  }

  method UnlinkFrom(bs: array<Bucket>, b: nat, x: Item, ghost chains: seq<seq<Item>>, ghost items: set<Item>,
                    ghost k: nat)
    requires AllOk(bs[..], chains, items) && Placed(chains, items)
    requires b < bs.Length && k < |chains[b]| && chains[b][k] == x
    modifies bs, items`hhPrev, items`hhNext
    ensures var chains' := chains[b := Without(chains[b], k)];
      AllOk(bs[..], chains', items - {x}) && Placed(chains', items - {x})
    ensures bs[..] == old(bs[..])[b := bs[b]] && bs[b].expandMult == old(bs[b].expandMult)
  {
    PlacedCut(chains, items, b, k);
    bs[b] := Unlink(bs[b], x, chains[b], k);
    forall o | 0 <= o < bs.Length && o != b
      ensures BucketOk(bs[o], chains[o])
    {
      ChainsApart(chains, items, b, o);
      assert old(BucketOk(bs[o], chains[o]));
      assert forall i :: 0 <= i < |chains[o]| ==> chains[o][i] in chains[o];
    }
  }
}
