/** The links that the macros of 3rd/uthash keep inside the user's structures, and sequences of
    linked items. */
module Links {
  import opened Prelude

  /** A user structure with a `UT_hash_handle` (or with the `prev` and `next` of utlist). */
  class Item {
    const key: string
    const hashv: nat
    var prev: Item?
    var next: Item?
    var hhPrev: Item?
    var hhNext: Item?

    constructor (key: string, hashv: nat)
      ensures this.key == key && this.hashv == hashv
    {
      this.key, this.hashv := key, hashv;
      prev, next, hhPrev, hhNext := null, null, null, null;
    }
  }

  function First(s: seq<Item>): Item?
  {
    if s == [] then null else s[0]
  }

  function Final(s: seq<Item>): Item?
  {
    if s == [] then null else s[|s| - 1]
  }

  /** `next` leads from each item to the one after it. */
  ghost predicate Forward(s: seq<Item>)
    reads s`next
  {
    forall i :: 0 <= i < |s| - 1 ==> s[i].next == s[i + 1]
  }

  /** `prev` leads from each item but the first to the one before it. */
  ghost predicate Backward(s: seq<Item>)
    reads s`prev
  {
    forall i :: 1 <= i < |s| ==> s[i].prev == s[i - 1]
  }

  ghost predicate Disjoint(a: seq<Item>, b: seq<Item>)
  {
    forall x :: x in a ==> x !in b
  }
}
