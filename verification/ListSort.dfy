/** LL_SORT2, DL_SORT2, CDL_SORT2 (3rd/uthash/utlist.h) and HASH_SRT (3rd/uthash/uthash.h): one
    merge sort in place, in four variants that differ in the `prev` links and in where a list ends.
    Each is proved to leave the list in the order of `MergeSort.Passes`. */
module ListSort {
  import opened Prelude
  import opened Links
  import opened MergeSort

  datatype Kind = Singly | Doubly | Circular | HashOrder

  /** A well-formed list of a kind, with its items in order. */
  ghost predicate IsList(kind: Kind, head: Item?, s: seq<Item>)
    reads s`next, s`prev
  {
    && head == First(s) && NoDuplicates(s) && Forward(s)
    && (s != [] ==> s[|s| - 1].next == if kind.Circular? then s[0] else null)
    && (s != [] && !kind.Singly? ==> Backward(s) && s[0].prev == if kind.HashOrder? then null else s[|s| - 1])
  }

  /** The end of the part of a list that has not been merged yet. */
  ghost predicate Pending(kind: Kind, oldhead: Item?, rest: seq<Item>, q: Item?)
    reads rest`next
  {
    && q == First(rest) && Forward(rest)
    && (rest != [] ==> rest[|rest| - 1].next == if kind.Circular? then oldhead else null)
    && (kind.Circular? ==> forall i :: 1 <= i < |rest| ==> rest[i] != oldhead)
  }

  /** The run `p` still to be merged. */
  ghost predicate RunLeft(kind: Kind, oldhead: Item?, run: seq<Item>, p: Item?)
    reads run`next
  {
    && (run != [] ==> p == run[0]) && Forward(run)
    && (kind.Circular? ==> forall i :: 1 <= i < |run| ==> run[i] != oldhead)
  }

  /** The list built so far in this pass. */
  ghost predicate Built(kind: Kind, out: seq<Item>, list: Item?, tail: Item?)
    reads out`next, out`prev
  {
    && list == First(out) && tail == Final(out) && Forward(out)
    && (!kind.Singly? && out != [] ==> Backward(out) && out[0].prev == null)
  }

  // ---------- keeping the three parts apart ----------

  lemma Parts(out: seq<Item>, run: seq<Item>, rest: seq<Item>)
    requires NoDuplicates(out + run + rest)
    ensures NoDuplicates(out) && NoDuplicates(run) && NoDuplicates(rest)
    ensures Disjoint(out, run) && Disjoint(out, rest) && Disjoint(run, rest)
  {
    var all := out + run + rest;
    assert forall i :: 0 <= i < |out| ==> out[i] == all[i];
    assert forall i :: 0 <= i < |run| ==> run[i] == all[|out| + i];
    assert forall i :: 0 <= i < |rest| ==> rest[i] == all[|out| + |run| + i];
  }

  lemma TakenFromRun(out: seq<Item>, run: seq<Item>, rest: seq<Item>)
    requires NoDuplicates(out + run + rest) && run != []
    ensures NoDuplicates((out + [run[0]]) + run[1..] + rest)
  {
    assert (out + [run[0]]) + run[1..] + rest == out + run + rest;
  }

  lemma TakenFromRest(out: seq<Item>, run: seq<Item>, rest: seq<Item>)
    requires NoDuplicates(out + run + rest) && rest != []
    ensures NoDuplicates((out + [rest[0]]) + run + rest[1..])
  {
    var all, new_ := out + run + rest, (out + [rest[0]]) + run + rest[1..];
    var o, r := |out|, |run|;
    assert forall i :: 0 <= i < |new_| ==>
      new_[i] == all[if i < o then i else if i == o then o + r else if i <= o + r then i - 1 else i];
  }

  /** `next`, with the wrap-around to the old head read as the end. */
  method Advance(kind: Kind, oldhead: Item?, x: Item) returns (n: Item?)
    ensures n == if kind.Circular? && x.next == oldhead then null else x.next
  {
    n := x.next;
    if kind.Circular? && n == oldhead {
      n := null;
    }
  }

  /** Append `e` to the list under construction. */
  method Emit(kind: Kind, list: Item?, tail: Item?, e: Item, ghost out: seq<Item>) returns (list': Item?)
    requires Built(kind, out, list, tail) && NoDuplicates(out) && e !in out
    modifies out`next, e`prev
    ensures Built(kind, out + [e], list', e)
  {
    list' := list;
    if tail != null {
      tail.next := e;
    } else {
      list' := e;
    }
    if !kind.Singly? {
      e.prev := tail;
    }
  }

  // ---------- merging two runs ----------

  /** Everything between two rounds of the innermost loop. */
  ghost predicate Merging(kind: Kind, oldhead: Item?, out: seq<Item>, list: Item?, tail: Item?,
                          run: seq<Item>, p: Item?, rest: seq<Item>, q: Item?)
    reads out`next, out`prev, run`next, rest`next
  {
    && NoDuplicates(out + run + rest)
    && Built(kind, out, list, tail) && RunLeft(kind, oldhead, run, p) && Pending(kind, oldhead, rest, q)
  }

  method StepRun(kind: Kind, oldhead: Item?, p: Item, ghost run: seq<Item>) returns (n: Item?)
    requires run != [] && RunLeft(kind, oldhead, run, p)
    ensures RunLeft(kind, oldhead, run[1..], n)
  {
    n := Advance(kind, oldhead, p);
  }

  method StepRest(kind: Kind, oldhead: Item?, q: Item, ghost rest: seq<Item>) returns (n: Item?)
    requires rest != [] && Pending(kind, oldhead, rest, q)
    ensures Pending(kind, oldhead, rest[1..], n)
  {
    n := Advance(kind, oldhead, q);
  }

  method TakeFromRun(kind: Kind, oldhead: Item?, list: Item?, tail: Item?, p: Item, q: Item?,
                     ghost out: seq<Item>, ghost run: seq<Item>, ghost rest: seq<Item>)
    returns (list': Item?, tail': Item?, p': Item?)
    requires run != [] && Merging(kind, oldhead, out, list, tail, run, p, rest, q)
    modifies out`next, run`prev
    ensures Merging(kind, oldhead, out + [run[0]], list', tail', run[1..], p', rest, q)
  {
    Parts(out, run, rest);
    TakenFromRun(out, run, rest);
    p' := StepRun(kind, oldhead, p, run);
    assert forall i :: 0 <= i < |run[1..]| ==> run[1..][i] == run[i + 1] && run[i + 1] in run;
    assert forall i :: 0 <= i < |rest| ==> rest[i] in rest;
    list' := Emit(kind, list, tail, p, out);
    tail' := p;
  }

  method TakeFromRest(kind: Kind, oldhead: Item?, list: Item?, tail: Item?, p: Item?, q: Item,
                      ghost out: seq<Item>, ghost run: seq<Item>, ghost rest: seq<Item>)
    returns (list': Item?, tail': Item?, q': Item?)
    requires rest != [] && Merging(kind, oldhead, out, list, tail, run, p, rest, q)
    modifies out`next, rest`prev
    ensures Merging(kind, oldhead, out + [rest[0]], list', tail', run, p, rest[1..], q')
  {
    Parts(out, run, rest);
    TakenFromRest(out, run, rest);
    q' := StepRest(kind, oldhead, q, rest);
    assert forall i :: 0 <= i < |rest[1..]| ==> rest[1..][i] == rest[i + 1] && rest[i + 1] in rest;
    assert forall i :: 0 <= i < |run| ==> run[i] in run;
    list' := Emit(kind, list, tail, q, out);
    tail' := q;
  }

  lemma MergeTakesRun(run: seq<Item>, q: seq<Item>, cmp: Compare<Item>)
    requires run != [] && (q == [] || cmp(run[0], q[0]) <= 0)
    ensures Merge(run, q, cmp) == [run[0]] + Merge(run[1..], q, cmp)
  {
    if q == [] {
      assert run == [run[0]] + run[1..];
    }
  }

  lemma MergeTakesRest(run: seq<Item>, q: seq<Item>, cmp: Compare<Item>)
    requires q != [] && (run == [] || cmp(run[0], q[0]) > 0)
    ensures Merge(run, q, cmp) == [q[0]] + Merge(run, q[1..], cmp)
  {
    if run == [] {
      assert q == [q[0]] + q[1..];
      assert Merge(run, q[1..], cmp) == q[1..];
    }
  }

  lemma RunOfTail(rest: seq<Item>, k: nat)
    requires rest != [] && 0 < k
    ensures Run(rest, k) != [] && Run(rest, k)[0] == rest[0]
    ensures Run(rest, k)[1..] == Run(rest[1..], k - 1) && After(rest, k) == After(rest[1..], k - 1)
  {
  }

  lemma Appended(out: seq<Item>, x: Item, m: seq<Item>)
    ensures (out + [x]) + m == out + ([x] + m)
  {
  }

  /** One round of the innermost loop: choose the smaller head, the first run's on a tie. */
  method MergeOne(kind: Kind, oldhead: Item?, cmp: Compare<Item>, list: Item?, tail: Item?, p: Item?, q: Item?,
                  psize: nat, qsize: nat, ghost out: seq<Item>, ghost run: seq<Item>, ghost rest: seq<Item>)
    returns (list': Item?, tail': Item?, p': Item?, q': Item?, psize': nat, qsize': nat,
             ghost out': seq<Item>, ghost run': seq<Item>, ghost rest': seq<Item>)
    requires Merging(kind, oldhead, out, list, tail, run, p, rest, q) && psize == |run|
    requires psize > 0 || (qsize > 0 && q != null)
    modifies out`next, run`prev, run`next, rest`prev, rest`next
    ensures Merging(kind, oldhead, out', list', tail', run', p', rest', q') && psize' == |run'|
    ensures out' + Merge(run', Run(rest', qsize'), cmp) == out + Merge(run, Run(rest, qsize), cmp)
    ensures After(rest', qsize') == After(rest, qsize) && psize' + qsize' < psize + qsize
    ensures forall x :: x in out' || x in run' || x in rest' ==> x in out || x in run || x in rest
  {
    p', q', psize', qsize', run', rest' := p, q, psize, qsize, run, rest;
    if psize > 0 && (qsize == 0 || q == null || cmp(p, q) <= 0) {
      MergeTakesRun(run, Run(rest, qsize), cmp);
      list', tail', p' := TakeFromRun(kind, oldhead, list, tail, p, q, out, run, rest);
      psize' := psize - 1;
      out', run' := out + [run[0]], run[1..];
      Appended(out, run[0], Merge(run[1..], Run(rest, qsize), cmp));
    } else {
      RunOfTail(rest, qsize);
      MergeTakesRest(run, Run(rest, qsize), cmp);
      list', tail', q' := TakeFromRest(kind, oldhead, list, tail, p, q, out, run, rest);
      qsize' := qsize - 1;
      out', rest' := out + [rest[0]], rest[1..];
      Appended(out, rest[0], Merge(run, Run(rest[1..], qsize - 1), cmp));
    }
  }

  /** The innermost loop: merge the run at `p` with the next `insize` items. */
  method MergeRuns(kind: Kind, oldhead: Item?, cmp: Compare<Item>, list0: Item?, tail0: Item?, p0: Item?, q0: Item?,
                   psize0: nat, insize: nat, ghost items: set<Item>,
                   ghost out0: seq<Item>, ghost run0: seq<Item>, ghost rest0: seq<Item>)
    returns (list: Item?, tail: Item?, q: Item?, ghost out: seq<Item>)
    requires Merging(kind, oldhead, out0, list0, tail0, run0, p0, rest0, q0) && psize0 == |run0|
    requires forall x :: x in out0 || x in run0 || x in rest0 ==> x in items
    modifies items`prev, items`next
    ensures out == out0 + Merge(run0, Run(rest0, insize), cmp)
    ensures NoDuplicates(out + After(rest0, insize)) && Built(kind, out, list, tail)
    ensures Pending(kind, oldhead, After(rest0, insize), q)
    ensures forall x :: x in out || x in After(rest0, insize) ==> x in items
  {
    ghost var run, rest := run0, rest0;
    ghost var goal, more := out0 + Merge(run0, Run(rest0, insize), cmp), After(rest0, insize);
    var p, psize, qsize := p0, psize0, insize;
    list, tail, q, out := list0, tail0, q0, out0;
    while psize > 0 || (qsize > 0 && q != null)
      invariant Merging(kind, oldhead, out, list, tail, run, p, rest, q) && psize == |run|
      invariant forall x :: x in out || x in run || x in rest ==> x in items
      invariant out + Merge(run, Run(rest, qsize), cmp) == goal && After(rest, qsize) == more
      decreases psize + qsize
    {
      list, tail, p, q, psize, qsize, out, run, rest :=
        MergeOne(kind, oldhead, cmp, list, tail, p, q, psize, qsize, out, run, rest);
    }
    NothingLeftToMerge(out, rest, qsize, cmp);
  }

  lemma NothingLeftToMerge(out: seq<Item>, rest: seq<Item>, qsize: nat, cmp: Compare<Item>)
    requires qsize == 0 || rest == []
    ensures out + Merge([], Run(rest, qsize), cmp) == out
    ensures After(rest, qsize) == rest && out + [] + rest == out + rest
  {
  }

  // ---------- one pass ----------

  /** Count off the first run: `q` ends up behind it. */
  method FindRun(kind: Kind, oldhead: Item?, p: Item, insize: nat, ghost rest: seq<Item>) returns (q: Item?, psize: nat)
    requires 0 < insize && rest != [] && Pending(kind, oldhead, rest, p)
    ensures psize == |Run(rest, insize)| && RunLeft(kind, oldhead, Run(rest, insize), p)
    ensures Pending(kind, oldhead, After(rest, insize), q)
  {
    q, psize := p, 0;
    var i := 0;
    while i < insize && q != null
      invariant 0 <= i <= insize && psize == (if i < |rest| then i else |rest|)
      invariant Pending(kind, oldhead, After(rest, i), q)
    {
      psize := psize + 1;
      ghost var now := After(rest, i);
      assert now[1..] == After(rest, i + 1);
      q := StepRest(kind, oldhead, q, now);
      i := i + 1;
    }
    assert q == null && i < insize ==> After(rest, i) == After(rest, insize);
  }

  lemma SplitForMerge(out: seq<Item>, rest: seq<Item>, k: nat)
    requires NoDuplicates(out + rest)
    ensures NoDuplicates(out + Run(rest, k) + After(rest, k))
  {
    assert out + Run(rest, k) + After(rest, k) == out + rest;
  }

  lemma PassStep(out: seq<Item>, rest: seq<Item>, k: nat, cmp: Compare<Item>)
    requires 0 < k && rest != []
    ensures out + Pass(rest, k, cmp)
         == (out + Merge(Run(rest, k), Run(After(rest, k), k), cmp)) + Pass(After(After(rest, k), k), k, cmp)
  {
  }

  /** Find a run and merge it with the one behind it. */
  method MergePair(kind: Kind, oldhead: Item?, cmp: Compare<Item>, list0: Item?, tail0: Item?, p: Item, insize: nat,
                   ghost items: set<Item>, ghost out0: seq<Item>, ghost rest: seq<Item>)
    returns (list: Item?, tail: Item?, q: Item?, ghost out: seq<Item>, ghost more: seq<Item>)
    requires 0 < insize && rest != [] && NoDuplicates(out0 + rest)
    requires Built(kind, out0, list0, tail0) && Pending(kind, oldhead, rest, p)
    requires forall x :: x in out0 || x in rest ==> x in items
    modifies items`prev, items`next
    ensures |more| == (if 2 * insize < |rest| then |rest| - 2 * insize else 0)
    ensures out + Pass(more, insize, cmp) == out0 + Pass(rest, insize, cmp)
    ensures
      && NoDuplicates(out + more) && Built(kind, out, list, tail) && Pending(kind, oldhead, more, q)
      && forall x :: x in out || x in more ==> x in items
  {
    var psize;
    more := After(After(rest, insize), insize);
    q, psize := FindRun(kind, oldhead, p, insize, rest);
    SplitForMerge(out0, rest, insize);
    list, tail, q, out := MergeRuns(kind, oldhead, cmp, list0, tail0, p, q, psize, insize, items,
                                    out0, Run(rest, insize), After(rest, insize));
    PassStep(out0, rest, insize, cmp);
  }

  /** How many merges a pass has made so far says how much of the list it has consumed. */
  ghost predicate MergesSoFar(nmerges: nat, len: nat, left: nat, span: nat)
  {
    && (nmerges == 0 ==> left == len)
    && (nmerges == 1 ==> left == 0 || len == left + span)
    && (nmerges >= 1 && left > 0 ==> len > span)
    && (nmerges >= 2 ==> len > span)
    && (nmerges == 1 && left == 0 ==> len <= span)
  }

  lemma OneMoreMerge(nmerges: nat, len: nat, left: nat, span: nat)
    requires MergesSoFar(nmerges, len, left, span) && left > 0
    ensures MergesSoFar(nmerges + 1, len, if span < left then left - span else 0, span)
  {
  }

  lemma StartOfPass(kind: Kind, head: Item, s: seq<Item>)
    requires IsList(kind, head, s) && s != []
    ensures Pending(kind, head, s, head) && Built(kind, [], null, null) && [] + s == s
  {
  }

  /** Where the pass loop stands: what is built, what is still to come. */
  ghost predicate Underway(kind: Kind, oldhead: Item?, out: seq<Item>, list: Item?, tail: Item?, rest: seq<Item>,
                           p: Item?, items: set<Item>)
    reads out`next, out`prev, rest`next
  {
    && NoDuplicates(out + rest) && Built(kind, out, list, tail) && Pending(kind, oldhead, rest, p)
    && (forall x :: x in out ==> x in items) && forall x :: x in rest ==> x in items
  }

  /** `_ls_nmerges++` and the merge. */
  method CountedMerge(kind: Kind, oldhead: Item?, cmp: Compare<Item>, list0: Item?, tail0: Item?, p: Item, insize: nat,
                      nmerges0: nat, ghost items: set<Item>, ghost out0: seq<Item>, ghost rest: seq<Item>,
                      ghost len: nat)
    returns (list: Item?, tail: Item?, q: Item?, nmerges: nat, ghost out: seq<Item>, ghost more: seq<Item>)
    requires 0 < insize && rest != [] && Underway(kind, oldhead, out0, list0, tail0, rest, p, items)
    requires MergesSoFar(nmerges0, len, |rest|, 2 * insize)
    modifies items`prev, items`next
    ensures |more| < |rest| && out + Pass(more, insize, cmp) == out0 + Pass(rest, insize, cmp)
    ensures Underway(kind, oldhead, out, list, tail, more, q, items) && MergesSoFar(nmerges, len, |more|, 2 * insize)
  {
    OneMoreMerge(nmerges0, len, |rest|, 2 * insize);
    nmerges := nmerges0 + 1;
    list, tail, q, out, more := MergePair(kind, oldhead, cmp, list0, tail0, p, insize, items, out0, rest);
  }

  lemma PassStarts(kind: Kind, head: Item, s: seq<Item>, k: nat, cmp: Compare<Item>, items: set<Item>)
    requires 0 < k && s != [] && NoDuplicates(s) && Pending(kind, head, s, head) && forall x :: x in s ==> x in items
    ensures Underway(kind, head, [], null, null, s, head, items) && [] + Pass(s, k, cmp) == Pass(s, k, cmp)
    ensures MergesSoFar(0, |s|, |s|, 2 * k)
  {
    assert [] + s == s;
  }

  lemma PassEnds(kind: Kind, oldhead: Item?, out: seq<Item>, list: Item?, tail: Item?, rest: seq<Item>,
                 items: set<Item>, k: nat, cmp: Compare<Item>, nmerges: nat, len: nat)
    requires 0 < k && 0 < len && Underway(kind, oldhead, out, list, tail, rest, null, items)
    requires MergesSoFar(nmerges, len, |rest|, 2 * k)
    ensures out + Pass(rest, k, cmp) == out && NoDuplicates(out) && Built(kind, out, list, tail)
    ensures (forall x :: x in out ==> x in items) && (nmerges <= 1 <==> len <= 2 * k)
  {
    assert rest == [] && out + rest == out;
  }

  method PassLoop(kind: Kind, oldhead: Item, cmp: Compare<Item>, insize: nat, ghost s: seq<Item>,
                  ghost items: set<Item>)
    returns (list: Item?, tail: Item?, nmerges: nat, ghost out: seq<Item>)
    requires 0 < insize && s != [] && NoDuplicates(s) && Pending(kind, oldhead, s, oldhead)
    requires forall x :: x in s ==> x in items
    modifies items`prev, items`next
    ensures out == Pass(s, insize, cmp) && NoDuplicates(out) && Built(kind, out, list, tail)
    ensures forall x :: x in out ==> x in items
    ensures nmerges <= 1 <==> |s| <= 2 * insize
  {
    var p: Item? := oldhead;
    list, tail, nmerges, out := null, null, 0, [];
    ghost var rest := s;
    PassStarts(kind, oldhead, s, insize, cmp, items);
    while p != null
      invariant Underway(kind, oldhead, out, list, tail, rest, p, items)
      invariant out + Pass(rest, insize, cmp) == Pass(s, insize, cmp) && MergesSoFar(nmerges, |s|, |rest|, 2 * insize)
      decreases |rest|
    {
      list, tail, p, nmerges, out, rest :=
        CountedMerge(kind, oldhead, cmp, list, tail, p, insize, nmerges, items, out, rest, |s|);
    }
    PassEnds(kind, oldhead, out, list, tail, rest, items, insize, cmp, nmerges, |s|);
  }

  // ---------- the sort ----------

  /** The end of a pass: terminate the new list, and close it as its kind wants it closed. */
  method Finish(kind: Kind, list: Item, tail: Item, ghost out: seq<Item>)
    requires out != [] && NoDuplicates(out) && Built(kind, out, list, tail)
    modifies list`prev, tail`next
    ensures IsList(kind, list, out)
  {
    if kind.Doubly? || kind.Circular? {
      list.prev := tail;
    }
    tail.next := if kind.Circular? then list else null;
  }

  /** One turn of the outer loop: merge the runs pairwise, close the list. */
  method OnePass(kind: Kind, cmp: Compare<Item>, head: Item, insize: nat, ghost s: seq<Item>, ghost items: set<Item>)
    returns (list: Item?, tail: Item?, nmerges: nat, ghost out: seq<Item>)
    requires 0 < insize && IsList(kind, head, s) && s != []
    requires forall x :: x in s ==> x in items
    modifies items`prev, items`next
    ensures IsList(kind, list, out) && tail == Final(out) && |out| == |s| && forall x :: x in out ==> x in items
    ensures if nmerges <= 1 then out == Passes(s, insize, cmp)
      else 2 * insize < |s| && Passes(out, 2 * insize, cmp) == Passes(s, insize, cmp)
  {
    hide MergesSoFar, Pass, Merge;
    StartOfPass(kind, head, s);
    list, tail, nmerges, out := PassLoop(kind, head, cmp, insize, s, items);
    Finish(kind, list, tail, out);
  }

  method SortLoop(kind: Kind, head: Item, cmp: Compare<Item>, ghost s: seq<Item>, ghost items: set<Item>)
    returns (list: Item?, tail: Item?, ghost cur: seq<Item>)
    requires IsList(kind, head, s) && s != [] && forall x :: x in s ==> x in items
    modifies items`prev, items`next
    ensures cur == Passes(s, 1, cmp) && IsList(kind, list, cur) && tail == Final(cur)
  {
    var insize, looping := 1, true;
    ghost var goal := Passes(s, 1, cmp);
    list, tail, cur := head, null, s;
    while looping
      invariant 0 < insize && |cur| == |s| && IsList(kind, list, cur) && forall x :: x in cur ==> x in items
      invariant goal == if looping then Passes(cur, insize, cmp) else cur
      invariant !looping ==> tail == Final(cur)
      decreases looping, |s| - insize
    {
      var nmerges;
      list, tail, nmerges, cur := OnePass(kind, cmp, list, insize, cur, items);
      if nmerges <= 1 {
        looping := false;
      }
      insize := 2 * insize;
    }
  }

  lemma SortedOrder(s: seq<Item>, r: seq<Item>, cmp: Compare<Item>)
    requires s != [] && NoDuplicates(s) && r == Passes(s, 1, cmp)
    ensures multiset(r) == multiset(s)
    ensures TotalPreorder(s, cmp) ==> MergeSort.Sorted(r, cmp) && KeepsTies(s, r, cmp)
    ensures TotalPreorder(s, cmp) ==> forall x :: x in s ==> Equals(r, x, cmp) == Equals(s, x, cmp)
  {
    PassesIsPermutation(s, 1, cmp);
    if TotalPreorder(s, cmp) {
      SortIsStable(s, cmp);
      SortKeepsTies(s, cmp);
    }
  }

  /** The four sort macros. Whatever the comparison does, the items stay the same; if it is a total
      preorder they come out sorted, and those that compare equal keep their order. `tail` is what
      HASH_SRT stores in the table. */
  method Sort(kind: Kind, head: Item?, cmp: Compare<Item>, ghost s: seq<Item>)
    returns (list: Item?, tail: Item?, ghost r: seq<Item>)
    requires IsList(kind, head, s)
    modifies s`prev, s`next
    ensures IsList(kind, list, r) && tail == Final(r) && multiset(r) == multiset(s)
    ensures TotalPreorder(s, cmp) ==> forall i, j :: 0 <= i < j < |r| ==> cmp(r[i], r[j]) <= 0
    ensures TotalPreorder(s, cmp) ==> KeepsTies(s, r, cmp)
    ensures TotalPreorder(s, cmp) ==> forall x :: x in s ==> Equals(r, x, cmp) == Equals(s, x, cmp)
  {
    list, tail, r := head, null, s;
    if head != null {
      list, tail, r := SortLoop(kind, head, cmp, s, set x | x in s);
      SortedOrder(s, r, cmp);
    }
  }
}
