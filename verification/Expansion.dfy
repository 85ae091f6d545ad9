/** HASH_EXPAND_BUCKETS of 3rd/uthash/uthash.h: every item moves to one of twice as many buckets. */
module Expansion {
  import opened Prelude
  import opened Links
  import opened Buckets
  import opened Bits

  // ---------- what the counters count ----------

  function Over(b: Bucket, ideal: nat): nat
  {
    if b.count > ideal then b.count - ideal else 0
  }

  /** How many items sit beyond the ideal length of their chain. */
  function Excess(bs: seq<Bucket>, ideal: nat): nat
  {
    if bs == [] then 0 else Over(bs[0], ideal) + Excess(bs[1..], ideal)
  }

  lemma {:induction false} ExcessOfUpdate(bs: seq<Bucket>, ideal: nat, k: nat, b: Bucket)
    requires k < |bs|
    ensures Excess(bs[k := b], ideal) == Excess(bs, ideal) - Over(bs[k], ideal) + Over(b, ideal)
  {
    if k > 0 {
      assert bs[k := b][1..] == bs[1..][k - 1 := b];
      ExcessOfUpdate(bs[1..], ideal, k - 1, b);
    } else {
      assert bs[k := b][1..] == bs[1..];
    }
  }

  /** One more item in a bucket is one more beyond the ideal length exactly if the bucket was full. */
  lemma ExcessOfOneMore(bs: seq<Bucket>, ideal: nat, k: nat, b: Bucket)
    requires k < |bs| && b.count == bs[k].count + 1
    ensures Excess(bs[k := b], ideal) == Excess(bs, ideal) + (if bs[k].count >= ideal then 1 else 0)
  {
    ExcessOfUpdate(bs, ideal, k, b);
  }

  /** Nothing is in excess exactly if no bucket holds more than the ideal length. */
  lemma {:induction false} NoExcessMeansIdeal(bs: seq<Bucket>, ideal: nat)
    ensures Excess(bs, ideal) == 0 <==> forall i :: 0 <= i < |bs| ==> bs[i].count <= ideal
  {
    if bs == [] {
    } else {
      NoExcessMeansIdeal(bs[1..], ideal);
      assert forall i :: 0 <= i < |bs[1..]| ==> bs[1..][i] == bs[i + 1];
      assert forall i :: 1 <= i < |bs| ==> bs[i] == bs[1..][i - 1];
    }
  }

  lemma {:induction false} NoExcess(bs: seq<Bucket>, ideal: nat)
    requires forall i :: 0 <= i < |bs| ==> bs[i] == EMPTY
    ensures Excess(bs, ideal) == 0
  {
    if bs == [] {
    } else {
      NoExcess(bs[1..], ideal);
    }
  }

  /** `expand_mult` of a chain that grew to `count` items during an expansion. */
  function Multiplier(count: nat, ideal: nat): nat
  {
    if count <= ideal then 0
    else
      var m := Multiplier(count - 1, ideal);
      if count > m * ideal then m + 1 else m
  }

  lemma CeilOfNext(c: nat, d: nat)
    requires 0 < d
    ensures var m := CeilDiv(c, d);
      CeilDiv(c + 1, d) == if c + 1 > m * d then m + 1 else m
  {
    var q, r := c / d, c % d;
    assert c == q * d + r;
    assert (q + 1) * d == q * d + d && (q + 2) * d == q * d + 2 * d;
    CeilByParts(c, d, q, r);
    if r + 1 < d {
      CeilByParts(c + 1, d, q, r + 1);
    } else {
      CeilByParts(c + 1, d, q + 1, 0);
    }
  }

  lemma CeilOfTwoMore(d: nat)
    requires 1 < d
    ensures CeilDiv(d + 2, d) == 2
  {
    if d == 2 {
      CeilByParts(4, 2, 2, 0);
    } else {
      CeilByParts(d + 2, d, 1, 2);
    }
  }

  /** Beyond the first item over the ideal length the multiplier is the chain length in units of the
      ideal length, rounded up; with an ideal length of one it is one less than that. */
  lemma {:induction false} MultiplierIsCeiling(count: nat, ideal: nat)
    requires 0 < ideal
    ensures Multiplier(count, ideal) ==
      if count <= ideal then 0
      else if ideal == 1 then count - 1
      else if count == ideal + 1 then 1
      else CeilDiv(count, ideal)
    decreases count
  {
    if count > ideal {
      MultiplierIsCeiling(count - 1, ideal);
      if ideal > 1 {
        if count == ideal + 2 {
          CeilOfTwoMore(ideal);
        } else if count > ideal + 2 {
          CeilOfNext(count - 1, ideal);
        }
      }
    }
  }

  ghost predicate Multiplied(bs: seq<Bucket>, ideal: nat)
  {
    forall b :: 0 <= b < |bs| ==> bs[b].expandMult == Multiplier(bs[b].count, ideal)
  }

  // ---------- moving items ----------

  /** The new buckets hold the items moved so far, and the counters agree with them. */
  ghost predicate Filling(bs: seq<Bucket>, chains: seq<seq<Item>>, moved: set<Item>, ideal: nat, nonideal: nat)
    reads moved`hhPrev, moved`hhNext
  {
    && AllOk(bs, chains, moved) && Placed(chains, moved) && nonideal == Excess(bs, ideal)
    && Multiplied(bs, ideal)
  }

  lemma ReplaceMultiplier(b: Bucket, m: nat, c: seq<Item>)
    requires BucketOk(b, c)
    ensures BucketOk(b.(expandMult := m), c)
  {
  }

  /** `++count`, and what follows from it for the two counters. */
  method CountItem(b: Bucket, ideal: nat, nonideal: nat) returns (mult: nat, nonideal': nat)
    requires b.expandMult == Multiplier(b.count, ideal)
    ensures mult == Multiplier(b.count + 1, ideal)
    ensures nonideal' == nonideal - Over(b, ideal) + Over(b.Grown(), ideal)
  {
    mult, nonideal' := b.expandMult, nonideal;
    if b.count + 1 > ideal {
      nonideal' := nonideal + 1;
      if b.count + 1 > mult * ideal {
        mult := mult + 1;
      }
    }
  }

  /** The links of one item in its new bucket. */
  method PlaceItem(bs: array<Bucket>, b: nat, x: Item, mult: nat, ghost chains: seq<seq<Item>>, ghost moved: set<Item>)
    requires AllOk(bs[..], chains, moved) && Placed(chains, moved)
    requires b < bs.Length && x !in moved && Slot(x, bs.Length) == b
    modifies bs, x`hhPrev, x`hhNext, moved`hhPrev
    ensures var chains' := chains[b := [x] + chains[b]];
      AllOk(bs[..], chains', moved + {x}) && Placed(chains', moved + {x})
    ensures bs[..] == old(bs[..])[b := Bucket(x, old(bs[b]).count + 1, mult)]
  {
    PushInto(bs, b, x, chains, moved);
    ReplaceMultiplier(bs[b], mult, [x] + chains[b]);
    bs[b] := bs[b].(expandMult := mult);
  }

  /** Count one item into its new bucket, then link it there. */
  method MoveItem(bs: array<Bucket>, x: Item, log2: nat, ideal: nat, nonideal: nat,
                  ghost chains: seq<seq<Item>>, ghost moved: set<Item>)
    returns (nonideal': nat, ghost chains': seq<seq<Item>>)
    requires Filling(bs[..], chains, moved, ideal, nonideal) && bs.Length == Pow2(log2) && x !in moved
    modifies bs, x`hhPrev, x`hhNext, moved`hhPrev
    ensures Filling(bs[..], chains', moved + {x}, ideal, nonideal') && |chains'| == |chains|
  {
    hide BucketOk, Placed, Excess;
    MaskIsModulo(x.hashv, log2);
    var b := And(x.hashv, bs.Length - 1);
    assert b == Slot(x, bs.Length);
    var mult;
    mult, nonideal' := CountItem(bs[b], ideal, nonideal);
    ExcessOfUpdate(bs[..], ideal, b, Bucket(x, bs[b].count + 1, mult));
    chains' := chains[b := [x] + chains[b]];
    PlaceItem(bs, b, x, mult, chains, moved);
  }

  /** What is left of an old chain while its items are being moved. */
  ghost predicate Remaining(rest: seq<Item>, p: Item?)
    reads rest`hhNext
  {
    && p == First(rest)
    && (rest != [] ==> rest[|rest| - 1].hhNext == null)
    && (forall i :: 0 <= i < |rest| - 1 ==> rest[i].hhNext == rest[i + 1])
  }

  lemma RemainingTail(rest: seq<Item>, p: Item)
    requires Remaining(rest, p)
    ensures rest != [] && rest[0] == p && Remaining(rest[1..], p.hhNext)
  {
  }

  method MoveNext(bs: array<Bucket>, x: Item, log2: nat, ideal: nat, nonideal: nat,
                  ghost chains: seq<seq<Item>>, ghost moved: set<Item>, ghost rest: seq<Item>)
    returns (next: Item?, nonideal': nat, ghost chains': seq<seq<Item>>)
    requires Filling(bs[..], chains, moved, ideal, nonideal) && bs.Length == Pow2(log2)
    requires Remaining(rest, x) && NoDuplicates(rest) && forall y :: y in rest ==> y !in moved
    modifies bs, x`hhPrev, x`hhNext, moved`hhPrev
    ensures Filling(bs[..], chains', moved + {x}, ideal, nonideal') && |chains'| == |chains|
    ensures Remaining(rest[1..], next)
  {
    RemainingTail(rest, x);
    assert x in rest;
    assert forall i :: 0 <= i < |rest[1..]| ==> rest[1..][i] == rest[i + 1] && rest[i + 1] in rest;
    next := x.hhNext;
    nonideal', chains' := MoveItem(bs, x, log2, ideal, nonideal, chains, moved);
  }

  function ToSet<T>(s: seq<T>): set<T>
  {
    set x | x in s
  }

  lemma ToSetNext<T>(c: seq<T>, i: nat)
    requires i < |c|
    ensures ToSet(c[..i + 1]) == ToSet(c[..i]) + {c[i]} && c[i..][1..] == c[i + 1..] && c[i..][0] == c[i]
  {
    assert c[..i + 1] == c[..i] + [c[i]];
  }

  lemma Later<T>(c: seq<T>, i: nat)
    requires i <= |c| && NoDuplicates(c)
    ensures NoDuplicates(c[i..]) && forall y :: y in c[i..] ==> y in c && y !in ToSet(c[..i])
  {
    forall y | y in c[i..]
      ensures y in c && y !in ToSet(c[..i])
    {
      var j :| 0 <= j < |c[i..]| && c[i..][j] == y;
      assert c[i + j] == y;
    }
  }

  method MoveNth(bs: array<Bucket>, x: Item, log2: nat, ideal: nat, nonideal: nat,
                 ghost chains: seq<seq<Item>>, ghost moved0: set<Item>, ghost c: seq<Item>, ghost i: nat)
    returns (next: Item?, nonideal': nat, ghost chains': seq<seq<Item>>)
    requires i < |c| && bs.Length == Pow2(log2) && Filling(bs[..], chains, moved0 + ToSet(c[..i]), ideal, nonideal)
    requires Remaining(c[i..], x) && NoDuplicates(c) && forall y :: y in c ==> y !in moved0
    modifies bs, c`hhPrev, c`hhNext, moved0`hhPrev
    ensures Filling(bs[..], chains', moved0 + ToSet(c[..i + 1]), ideal, nonideal') && |chains'| == |chains|
    ensures Remaining(c[i + 1..], next)
  {
    RemainingTail(c[i..], x);
    ToSetNext(c, i);
    Later(c, i);
    ghost var moved := moved0 + ToSet(c[..i]);
    next, nonideal', chains' := MoveNext(bs, x, log2, ideal, nonideal, chains, moved, c[i..]);
    assert moved + {x} == moved0 + ToSet(c[..i + 1]);
  }

  lemma NoneOf<T>(c: seq<T>, s: set<T>)
    ensures s + ToSet(c[..0]) == s && c[0..] == c && s + ToSet(c[..|c|]) == s + ToSet(c)
  {
    assert c[..|c|] == c;
  }

  /** The inner loop: move the items of one old chain. */
  method MoveChain(bs: array<Bucket>, head: Item?, log2: nat, ideal: nat, nonideal0: nat,
                   ghost chains0: seq<seq<Item>>, ghost moved0: set<Item>, ghost c: seq<Item>)
    returns (nonideal: nat, ghost chains: seq<seq<Item>>)
    requires Filling(bs[..], chains0, moved0, ideal, nonideal0) && bs.Length == Pow2(log2)
    requires Remaining(c, head) && NoDuplicates(c) && forall y :: y in c ==> y !in moved0
    modifies bs, c`hhPrev, c`hhNext, moved0`hhPrev
    ensures Filling(bs[..], chains, moved0 + ToSet(c), ideal, nonideal) && |chains| == |chains0|
  {
    hide Filling, Pow2;
    var p := head;
    nonideal, chains := nonideal0, chains0;
    ghost var i := 0;
    NoneOf(c, moved0);
    while p != null
      invariant 0 <= i <= |c| && |chains| == |chains0|
      invariant Filling(bs[..], chains, moved0 + ToSet(c[..i]), ideal, nonideal) && Remaining(c[i..], p)
      decreases |c| - i
    {
      p, nonideal, chains := MoveNth(bs, p, log2, ideal, nonideal, chains, moved0, c, i);
      i := i + 1;
    }
  }

  /** The items of the first `i` chains. */
  ghost function InFirst(items: set<Item>, i: nat, buckets: nat): set<Item>
    requires 0 < buckets
  {
    set x | x in items && Slot(x, buckets) < i
  }

  lemma InFirstNext(chains: seq<seq<Item>>, items: set<Item>, i: nat)
    requires Placed(chains, items) && i < |chains|
    ensures var n := |chains|;
      && InFirst(items, i + 1, n) == InFirst(items, i, n) + ToSet(chains[i])
      && (forall y :: y in chains[i] ==> y in items && y !in InFirst(items, i, n))
      && (forall o, y :: i < o < n && y in chains[o] ==> y in items && y !in chains[i] && y !in InFirst(items, i, n))
  {
    var n := |chains|;
    forall o, y | i <= o < n && y in chains[o]
      ensures y in items && Slot(y, n) == o
    {
      assert Homed(chains[o], o, n, items);
    }
  }

  /** The old buckets from `i` on are as they were. */
  ghost predicate Waiting(bs: seq<Bucket>, chains: seq<seq<Item>>, items: set<Item>, i: nat)
    reads items`hhPrev, items`hhNext
  {
    && |bs| == |chains|
    && forall o :: i <= o < |bs| ==> (forall y :: y in chains[o] ==> y in items) && BucketOk(bs[o], chains[o])
  }

  lemma AllWait(bs: seq<Bucket>, chains: seq<seq<Item>>, items: set<Item>)
    requires AllOk(bs, chains, items)
    ensures Waiting(bs, chains, items, 0)
  {
  }

  method MoveBucket(new_: array<Bucket>, old_: array<Bucket>, i: nat, log2: nat, ideal: nat, nonideal: nat,
                    ghost chains: seq<seq<Item>>, ghost items: set<Item>, ghost chains0: seq<seq<Item>>)
    returns (nonideal': nat, ghost chains': seq<seq<Item>>)
    requires new_ != old_ && new_.Length == Pow2(log2) && i < old_.Length
    requires Placed(chains0, items) && Waiting(old_[..], chains0, items, i)
    requires Filling(new_[..], chains, InFirst(items, i, old_.Length), ideal, nonideal)
    modifies new_, items`hhPrev, items`hhNext
    ensures Waiting(old_[..], chains0, items, i + 1) && |chains'| == |chains|
    ensures Filling(new_[..], chains', InFirst(items, i + 1, old_.Length), ideal, nonideal')
  {
    InFirstNext(chains0, items, i);
    var b := old_[i];
    assert BucketOk(b, chains0[i]);
    nonideal', chains' := MoveChain(new_, b.head, log2, ideal, nonideal, chains,
                                    InFirst(items, i, old_.Length), chains0[i]);
    forall o | i < o < old_.Length
      ensures BucketOk(old_[o], chains0[o])
    {
      assert old(BucketOk(old_[o], chains0[o]));
      assert forall j :: 0 <= j < |chains0[o]| ==> chains0[o][j] in chains0[o];
    }
  }

  lemma NothingMoved(bs: seq<Bucket>, items: set<Item>, buckets: nat, ideal: nat)
    requires bs != [] && 0 < buckets && forall i :: 0 <= i < |bs| ==> bs[i] == EMPTY
    ensures Filling(bs, seq(|bs|, _ => []), InFirst(items, 0, buckets), ideal, 0)
  {
    NoExcess(bs, ideal);
  }

  /** `uthash_malloc` and `uthash_bzero`. */
  method EmptyBuckets(n: nat) returns (bs: array<Bucket>)
    ensures fresh(bs) && bs.Length == n && forall i :: 0 <= i < n ==> bs[..][i] == EMPTY
  {
    bs := new Bucket[n](_ => EMPTY);
  }

  lemma AllInFirst(items: set<Item>, buckets: nat)
    requires 0 < buckets
    ensures InFirst(items, buckets, buckets) == items
  {
  }

  /** The double loop of HASH_EXPAND_BUCKETS. */
  method Redistribute(old_: array<Bucket>, log2: nat, ideal: nat, ghost chains0: seq<seq<Item>>, ghost items: set<Item>)
    returns (new_: array<Bucket>, nonideal: nat, ghost chains: seq<seq<Item>>)
    requires old_.Length == Pow2(log2) && AllOk(old_[..], chains0, items) && Placed(chains0, items)
    modifies items`hhPrev, items`hhNext
    ensures fresh(new_) && new_.Length == Pow2(log2 + 1)
    ensures Filling(new_[..], chains, items, ideal, nonideal)
  {
    hide Filling, Waiting, AllOk, Placed, Slot;
    AllWait(old_[..], chains0, items);
    new_ := EmptyBuckets(old_.Length * 2);
    nonideal, chains := 0, seq(|new_[..]|, _ => []);
    NothingMoved(new_[..], items, old_.Length, ideal);
    var i := 0;
    while i < old_.Length
      invariant 0 <= i <= old_.Length && Waiting(old_[..], chains0, items, i)
      invariant Filling(new_[..], chains, InFirst(items, i, old_.Length), ideal, nonideal)
    {
      nonideal, chains := MoveBucket(new_, old_, i, log2 + 1, ideal, nonideal, chains, items, chains0);
      i := i + 1;
    }
    AllInFirst(items, old_.Length);
  }
}
