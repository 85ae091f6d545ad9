/** Whole runs of HASH_ADD and HASH_DELETE on one table of 3rd/uthash/uthash.h. */
module HashRuns {
  import opened Prelude
  import opened Links
  import opened Buckets
  import opened HashTable

  datatype Change = Put(x: Item) | Drop(x: Item)

  function Index<T(==)>(s: seq<T>, x: T): (k: nat)
    requires x in s
    ensures k < |s| && s[k] == x
  {
    if s[0] == x then 0 else 1 + Index(s[1..], x)
  }

  /** What one change does to the insertion order. */
  function Applied(order: seq<Item>, c: Change): seq<Item>
  {
    match c
    case Put(x) => order + [x]
    case Drop(x) => if x in order then Without(order, Index(order, x)) else order
  }

  /** HASH_ADD needs a key that is not in the table, HASH_DELETE an item that is. */
  predicate Allowed(order: seq<Item>, c: Change)
  {
    match c
    case Put(x) => forall y :: y in order ==> y.key != x.key
    case Drop(x) => x in order
  }

  function Replay(changes: seq<Change>): seq<Item>
  {
    if changes == [] then []
    else Applied(Replay(changes[..|changes| - 1]), changes[|changes| - 1])
  }

  predicate Legal(changes: seq<Change>)
  {
    changes == [] ||
    (Legal(changes[..|changes| - 1]) && Allowed(Replay(changes[..|changes| - 1]), changes[|changes| - 1]))
  }

  /** The insertions that no later deletion undoes, in the order in which they were made. */
  function Survivors(changes: seq<Change>): seq<Item>
  {
    if changes == [] then []
    else
      var rest := changes[1..];
      (if changes[0].Put? && Drop(changes[0].x) !in rest then [changes[0].x] else []) + Survivors(rest)
  }

  function Except<T(==)>(s: seq<T>, x: T): seq<T>
  {
    if s == [] then [] else (if s[0] == x then [] else [s[0]]) + Except(s[1..], x)
  }

  lemma {:induction false} ExceptAbsent<T>(s: seq<T>, x: T)
    requires x !in s
    ensures Except(s, x) == s
  {
    if s == [] {
    } else {
      ExceptAbsent(s[1..], x);
    }
  }

  lemma ExceptOfFirst<T>(y: T, s: seq<T>, x: T)
    ensures Except([y] + s, x) == (if y == x then [] else [y]) + Except(s, x)
  {
    assert ([y] + s)[1..] == s;
  }

  lemma {:induction false} ExceptConcat<T>(s: seq<T>, t: seq<T>, x: T)
    ensures Except(s + t, x) == Except(s, x) + Except(t, x)
  {
    if s == [] {
      assert s + t == t;
    } else {
      ExceptConcat(s[1..], t, x);
      ExceptOfFirst(s[0], s[1..] + t, x);
      ExceptOfFirst(s[0], s[1..], x);
      assert s + t == [s[0]] + (s[1..] + t) && s == [s[0]] + s[1..];
    }
  }

  lemma AbsentElsewhere<T>(s: seq<T>, k: nat)
    requires NoDuplicates(s) && k < |s|
    ensures s[k] !in s[..k] && s[k] !in s[k + 1..]
  {
  }

  lemma ExceptIsWithout<T>(s: seq<T>, k: nat)
    requires NoDuplicates(s) && k < |s|
    ensures Except(s, s[k]) == Without(s, k)
  {
    hide Except;
    var x := s[k];
    AbsentElsewhere(s, k);
    assert s == s[..k] + s[k..];
    ExceptOfFirst(x, s[k + 1..], x);
    ExceptConcat(s[..k], s[k..], x);
    ExceptAbsent(s[..k], x);
    ExceptAbsent(s[k + 1..], x);
    assert s[k..] == [x] + s[k + 1..] && [] + s[k + 1..] == s[k + 1..];
  }

  lemma {:induction false} SurvivorsOfNext(changes: seq<Change>, c: Change)
    ensures Survivors(changes + [c]) == if c.Put? then Survivors(changes) + [c.x] else Except(Survivors(changes), c.x)
  {
    var all := changes + [c];
    if changes == [] {
      assert all == [c] && all[1..] == [];
    } else {
      var first, rest := changes[0], changes[1..];
      SurvivorsOfNext(rest, c);
      assert all[0] == first && all[1..] == rest + [c];
      assert forall d :: d in rest + [c] <==> d in rest || d == c;
      if c.Drop? {
        ExceptConcat(if first.Put? && Drop(first.x) !in rest then [first.x] else [], Survivors(rest), c.x);
      }
    }
  }

  lemma WithoutKeepsDistinct<T>(s: seq<T>, k: nat)
    requires NoDuplicates(s) && k < |s|
    ensures NoDuplicates(Without(s, k))
  {
    var d := Without(s, k);
    assert forall i :: 0 <= i < |d| ==> d[i] == s[if i < k then i else i + 1];
  }

  lemma AppendKeepsDistinct(s: seq<Item>, x: Item)
    requires NoDuplicates(s) && Allowed(s, Put(x))
    ensures NoDuplicates(s + [x])
  {
    assert forall i :: 0 <= i < |s| ==> s[i] in s;
  }

  /** After every legal run the insertion order is that of the surviving insertions. */
  lemma {:induction false} OrderIsThatOfSurvivors(changes: seq<Change>)
    requires Legal(changes)
    ensures Replay(changes) == Survivors(changes) && NoDuplicates(Replay(changes))
  {
    if changes == [] {
    } else {
      var before, c := changes[..|changes| - 1], changes[|changes| - 1];
      OrderIsThatOfSurvivors(before);
      assert changes == before + [c];
      SurvivorsOfNext(before, c);
      if c.Drop? {
        var k := Index(Replay(before), c.x);
        ExceptIsWithout(Replay(before), k);
        WithoutKeepsDistinct(Replay(before), k);
      } else {
        AppendKeepsDistinct(Replay(before), c.x);
      }
    }
  }

  // ---------- the table follows the run ----------

  lemma LegalPrefix(changes: seq<Change>, i: nat)
    requires Legal(changes) && i <= |changes|
    ensures Legal(changes[..i])
    decreases |changes|
  {
    if i < |changes| {
      LegalPrefix(changes[..|changes| - 1], i);
      assert changes[..|changes| - 1][..i] == changes[..i];
    } else {
      assert changes[..i] == changes;
    }
  }

  lemma NextOfRun(changes: seq<Change>, i: nat)
    requires Legal(changes) && i < |changes|
    ensures Allowed(Replay(changes[..i]), changes[i])
    ensures Replay(changes[..i + 1]) == Applied(Replay(changes[..i]), changes[i])
  {
    LegalPrefix(changes, i + 1);
    assert changes[..i + 1][..i] == changes[..i];
  }


  method ApplyChange(t: Table, c: Change, ghost all: set<Item>)
    requires t.Valid() && Allowed(t.order, c) && (forall x :: x in t.order ==> x in all)
    requires c.x in all && c.x.hashv == t.hash(c.x.key)
    modifies t, t.buckets, all
    ensures t.Valid() && t.order == Applied(old(t.order), c) && (forall x :: x in t.order ==> x in all)
    ensures t.buckets == old(t.buckets) || fresh(t.buckets)
  {
    match c
    case Put(x) => t.Add(x);
    case Drop(x) =>
      ghost var k := Index(t.order, x);
      t.Delete(x, k);
  }

  /** A run on a new table: the invariant holds throughout, and HASH_ITER visits the survivors. */
  method Run(hash: string -> nat, changes: seq<Change>) returns (t: Table, visited: seq<Item>)
    requires Legal(changes) && forall c :: c in changes ==> c.x.hashv == hash(c.x.key)
    modifies set c | c in changes :: c.x
    ensures t.Valid() && visited == Survivors(changes)
  {
    ghost var all := set c | c in changes :: c.x;
    t := new Table(hash);
    for i := 0 to |changes|
      invariant t.Valid() && t.hash == hash && fresh(t) && fresh(t.buckets)
      invariant t.order == Replay(changes[..i]) && forall x :: x in t.order ==> x in all
    {
      NextOfRun(changes, i);
      assert changes[i] in changes;
      ApplyChange(t, changes[i], all);
    }
    assert changes[..|changes|] == changes;
    OrderIsThatOfSurvivors(changes);
    visited := t.Iterate();
  }
}
