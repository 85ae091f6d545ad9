/** The ring buffer of 3rd/uthash/utringbuffer.h. Pointers to elements are slot numbers. */
module RingBuffer {
  import opened Prelude
  import Bits

  /** The last `n` of the values pushed so far. */
  function Window<T>(pushed: seq<T>, n: nat): seq<T>
  {
    if |pushed| <= n then pushed else pushed[|pushed| - n..]
  }

  lemma Wrap(x: nat, n: nat)
    requires 0 < n && x < 2 * n
    ensures x % n == if x < n then x else x - n
  {
    if x < n {
      Bits.DivModUnique(x, n, 0, x);
    } else {
      Bits.DivModUnique(x, n, 1, x - n);
    }
  }

  /** The slots from `i` on hold the oldest elements once the buffer is full. */
  function Unrolled<T>(slots: seq<T>, i: nat, full: bool): seq<T>
    requires i <= |slots|
  {
    if full then slots[i..] + slots[..i] else slots[..i]
  }

  lemma PushedContents<T>(slots: seq<T>, slots': seq<T>, i: nat, full: bool, x: T)
    requires i < |slots| && slots' == slots[i := x]
    ensures full ==> Unrolled(slots', i + 1, true) == Unrolled(slots, i, true)[1..] + [x]
    ensures i + 1 == |slots| ==> Unrolled(slots', 0, true) == slots[..i] + [x] == Unrolled(slots', i + 1, false)
    ensures i + 1 == |slots| && full ==> Unrolled(slots', 0, true) == Unrolled(slots, i, true)[1..] + [x]
    ensures Unrolled(slots', i + 1, false) == Unrolled(slots, i, false) + [x]
  {
  }

  lemma WindowNext<T>(pushed: seq<T>, n: nat, x: T)
    requires 0 < n
    ensures Window(pushed + [x], n) == if |pushed| < n then Window(pushed, n) + [x] else Window(pushed, n)[1..] + [x]
  {
  }

  class Ring<T(0)> {
    const n: nat
    const d: array<T>
    var i: nat
    var f: bool
    ghost var pushed: seq<T>

    ghost predicate Valid()
      reads this, d
    {
      && d.Length == n && i < n
      && (!f ==> i == |pushed|) && (f ==> |pushed| >= n)
      && Contents() == Window(pushed, n)
    }

    function Len(): nat
      reads this
    {
      if f then n else i
    }

    /** What can be read, in the order of the element numbers. */
    ghost function Contents(): seq<T>
      requires d.Length == n && i <= n
      reads this, d
    {
      Unrolled(d[..], i, f)
    }

    /** `utringbuffer_new`; the macros divide by the capacity, so it must not be zero. */
    constructor (n: nat)
      requires 0 < n
      ensures Valid() && pushed == [] && this.n == n && fresh(d)
    {
      this.n, i, f, pushed := n, 0, false, [];
      d := new T[n];
    }

    /** `utringbuffer_push_back`: after any number of pushes the last `n` values can be read, in
        order. */
    method PushBack(x: T)
      requires Valid()
      modifies this`i, this`f, this`pushed, d
      ensures Valid() && pushed == old(pushed) + [x]
      ensures Contents() == Window(old(pushed) + [x], n)
    {
      ghost var was, dw, at := Contents(), d[..], i;
      d[i] := x;
      i := i + 1;
      if i == n {
        i, f := 0, true;
      }
      PushedContents(dw, d[..], at, f, x);
      WindowNext(pushed, n, x);
      pushed := pushed + [x];
    }

    /** What can be read are all values pushed, or the last `n` of them, the oldest first. */
    lemma LastPushed(j: nat)
      requires Valid() && j < |Contents()|
      ensures |Contents()| == if |pushed| < n then |pushed| else n
      ensures Contents()[j] == pushed[|pushed| - |Contents()| + j]
    {
    }

    /** `utringbuffer_clear`. */
    method Clear()
      requires Valid()
      modifies this`i, this`f, this`pushed
      ensures Valid() && pushed == [] && Contents() == []
    {
      i, f, pushed := 0, false, [];
    }

    /** `_utringbuffer_real_idx`. */
    function RealIdx(j: nat): nat
      requires 0 < n
      reads this
    {
      if f then (j + i) % n else j
    }

    /** `_utringbuffer_fake_idx`, which is `utringbuffer_eltidx` of a slot. */
    function EltIdx(p: nat): nat
      requires 0 < n && i < n
      reads this
    {
      if f then (p + n - i) % n else p
    }

    /** `utringbuffer_eltptr`. */
    function EltPtr(j: int): (p: Option<nat>)
      requires Valid()
      reads this, d
      ensures p.Some? <==> 0 <= j < |Contents()|
      ensures p.Some? ==> p.value < n && d[p.value] == Contents()[j]
    {
      if 0 <= j < Len() then
        IndexIsInverse(j);
        Some(RealIdx(j))
      else None
    }

    /** Element numbers and slots are mutually inverse, and a number leads to its element. */
    lemma IndexIsInverse(j: nat)
      requires Valid() && j < Len()
      ensures RealIdx(j) < Len() && EltIdx(RealIdx(j)) == j && d[RealIdx(j)] == Contents()[j]
      ensures EltIdx(j) < Len() && RealIdx(EltIdx(j)) == j
    {
      if f {
        Wrap(j + i, n);
        Wrap(RealIdx(j) + n - i, n);
        Wrap(j + n - i, n);
        Wrap(EltIdx(j) + i, n);
      }
    }

    /** `utringbuffer_next`, and `utringbuffer_front` of NULL. */
    function Next(e: Option<nat>): Option<nat>
      requires Valid()
      reads this, d
    {
      if e.None? then EltPtr(0) else EltPtr(EltIdx(e.value) + 1)
    }

    /** `utringbuffer_prev`, and `utringbuffer_back` of NULL. */
    function Prev(e: Option<nat>): Option<nat>
      requires Valid()
      reads this, d
    {
      if e.None? then (if i == 0 && !f then None else EltPtr(Len() - 1)) else EltPtr(EltIdx(e.value) - 1)
    }

    /** Stepping forward and stepping back undo each other, also across NULL. */
    lemma NextAndPrev(j: nat)
      requires Valid() && j < Len()
      ensures var e := EltPtr(j);
        && e.Some? && Next(e) == EltPtr(j + 1) && Prev(e) == EltPtr(j - 1)
        && Prev(Next(e)) == e && Next(Prev(e)) == e
    {
      IndexIsInverse(j);
      if j + 1 < Len() {
        IndexIsInverse(j + 1);
      }
      if j > 0 {
        IndexIsInverse(j - 1);
      }
    }

    /** Iterating with `utringbuffer_next` visits each element once, the oldest first. */
    method Iterate() returns (visited: seq<T>)
      requires Valid()
      ensures visited == Window(pushed, n)
    {
      visited := [];
      var e := Next(None);
      ghost var j := 0;
      while e.Some?
        invariant 0 <= j <= Len() && visited == Contents()[..j] && e == EltPtr(j)
        decreases Len() - j
      {
        NextAndPrev(j);
        visited := visited + [d[e.value]];
        e := Next(e);
        j := j + 1;
      }
    }
  }
}
