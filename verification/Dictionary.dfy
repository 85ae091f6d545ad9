/** The dictionary of 3rd/iniparser/dictionary.c: three parallel arrays searched from end to end,
    filled by a probe that wraps around. */
module Dictionary {
  import opened Prelude

  type Keys = seq<Option<string>>

  /** The slots in use. */
  ghost function Occupied(keys: Keys): set<nat>
  {
    set i: nat | i < |keys| && keys[i].Some?
  }

  /** No key stands in two slots. */
  ghost predicate Unique(keys: Keys)
  {
    forall i, j :: 0 <= i < j < |keys| && keys[i].Some? ==> keys[i] != keys[j]
  }

  ghost predicate HasKey(keys: Keys, k: string)
  {
    exists i :: 0 <= i < |keys| && keys[i] == Some(k)
  }

  /** The arrays hold the map: each key once, next to its value and its hash. */
  ghost predicate Holds(keys: Keys, vals: seq<Option<string>>, hashes: seq<nat>, hash: string -> nat,
                        contents: map<string, Option<string>>)
  {
    && |keys| == |vals| == |hashes| && Unique(keys)
    && (forall i :: 0 <= i < |keys| && keys[i].Some? ==>
          keys[i].value in contents && vals[i] == contents[keys[i].value] && hashes[i] == hash(keys[i].value))
    && (forall k :: k in contents ==> HasKey(keys, k))
  }

  // ---------- what the changes do, as values ----------

  lemma Overwritten(keys: Keys, vals: seq<Option<string>>, hashes: seq<nat>, hash: string -> nat,
                    contents: map<string, Option<string>>, i: nat, v: Option<string>)
    requires Holds(keys, vals, hashes, hash, contents) && i < |keys| && keys[i].Some?
    ensures Holds(keys, vals[i := v], hashes, hash, contents[keys[i].value := v])
  {
  }

  lemma Inserted(keys: Keys, vals: seq<Option<string>>, hashes: seq<nat>, hash: string -> nat,
                 contents: map<string, Option<string>>, i: nat, k: string, v: Option<string>)
    requires Holds(keys, vals, hashes, hash, contents) && i < |keys| && keys[i].None? && k !in contents
    ensures Holds(keys[i := Some(k)], vals[i := v], hashes[i := hash(k)], hash, contents[k := v])
    ensures |Occupied(keys[i := Some(k)])| == |Occupied(keys)| + 1
  {
    var keys' := keys[i := Some(k)];
    forall x | x in contents[k := v]
      ensures HasKey(keys', x)
    {
      if x == k {
        assert keys'[i] == Some(x);
      } else {
        var j :| 0 <= j < |keys| && keys[j] == Some(x);
        assert keys'[j] == Some(x);
      }
    }
    assert Occupied(keys') == Occupied(keys) + {i};
  }

  lemma Erased(keys: Keys, vals: seq<Option<string>>, hashes: seq<nat>, hash: string -> nat,
               contents: map<string, Option<string>>, i: nat)
    requires Holds(keys, vals, hashes, hash, contents) && i < |keys| && keys[i].Some?
    ensures Holds(keys[i := None], vals[i := None], hashes[i := 0], hash, contents - {keys[i].value})
    ensures |Occupied(keys[i := None])| == |Occupied(keys)| - 1
  {
    var keys', k := keys[i := None], keys[i].value;
    forall x | x in contents - {k}
      ensures HasKey(keys', x)
    {
      var j :| 0 <= j < |keys| && keys[j] == Some(x);
      assert keys'[j] == Some(x);
    }
    assert Occupied(keys') == Occupied(keys) - {i};
  }

  /** As many slots again, with nothing in them. */
  function Padded<T>(s: seq<T>, x: T): seq<T>
  {
    s + seq(|s|, _ => x)
  }

  lemma Enlarged(keys: Keys, vals: seq<Option<string>>, hashes: seq<nat>, hash: string -> nat,
                 contents: map<string, Option<string>>)
    requires Holds(keys, vals, hashes, hash, contents)
    ensures Holds(Padded(keys, None), Padded(vals, None), Padded(hashes, 0), hash, contents)
    ensures Occupied(Padded(keys, None)) == Occupied(keys)
  {
    forall x | x in contents
      ensures HasKey(Padded(keys, None), x)
    {
      var j :| 0 <= j < |keys| && keys[j] == Some(x);
      assert Padded(keys, None)[j] == Some(x);
    }
  }

  lemma {:induction false} Below(m: nat) returns (all: set<nat>)
    ensures (forall i :: i in all <==> 0 <= i < m) && |all| == m
  {
    if m == 0 {
      all := {};
    } else {
      all := Below(m - 1);
      all := all + {m - 1};
    }
  }

  lemma AllInUse(keys: Keys)
    requires forall i :: 0 <= i < |keys| ==> keys[i].Some?
    ensures |Occupied(keys)| == |keys|
  {
    var all := Below(|keys|);
    assert Occupied(keys) == all;
  }

  lemma NotHeld(keys: Keys, vals: seq<Option<string>>, hashes: seq<nat>, hash: string -> nat,
                contents: map<string, Option<string>>, k: string)
    requires Holds(keys, vals, hashes, hash, contents) && forall i :: 0 <= i < |keys| ==> keys[i] != Some(k)
    ensures k !in contents
  {
  }

  /** `calloc` of twice the size and `memcpy`. */
  method Doubled<T>(a: array<T>, zero: T) returns (b: array<T>)
    ensures fresh(b) && b.Length == 2 * a.Length && b[..] == Padded(a[..], zero)
  {
    b := new T[2 * a.Length](_ => zero);
    forall i | 0 <= i < a.Length {
      b[i] := a[i];
    }
  }

  /** While not every slot is in use there is a free one. */
  lemma FreeSlotExists(keys: Keys) returns (f: nat)
    requires |Occupied(keys)| < |keys|
    ensures f < |keys| && keys[f].None?
  {
    if forall i :: 0 <= i < |keys| ==> keys[i].Some? {
      AllInUse(keys);
    }
    f :| 0 <= f < |keys| && keys[f].None?;
  }

  lemma NotMoreThanSlots(keys: Keys)
    ensures |Occupied(keys)| <= |keys|
  {
    var all := Below(|keys|);
    assert all == Occupied(keys) + (all - Occupied(keys));
  }

  /** As many slots as keys. */
  lemma {:induction false} AsManyKeys(keys: Keys, vals: seq<Option<string>>, hashes: seq<nat>, hash: string -> nat,
                                      contents: map<string, Option<string>>)
    requires Holds(keys, vals, hashes, hash, contents)
    ensures |Occupied(keys)| == |contents|
    decreases |contents|
  {
    if contents == map[] {
      assert Occupied(keys) == {};
    } else {
      var k :| k in contents;
      assert HasKey(keys, k);
      var i :| 0 <= i < |keys| && keys[i] == Some(k);
      Erased(keys, vals, hashes, hash, contents, i);
      assert contents.Keys == (contents - {k}).Keys + {k};
      AsManyKeys(keys[i := None], vals[i := None], hashes[i := 0], hash, contents - {k});
    }
  }

  const MINIMAL_SIZE: nat := 128

  class Dict {
    const hash: string -> nat
    var key: array<Option<string>>
    var val: array<Option<string>>
    var hashes: array<nat>
    var n: nat
    var size: nat
    ghost var contents: map<string, Option<string>>

    ghost predicate Valid()
      reads this, key, val, hashes
    {
      && key.Length == val.Length == hashes.Length == size > 0 && key != val
      && Holds(key[..], val[..], hashes[..], hash, contents)
      && n == |Occupied(key[..])|
    }

    /** `dictionary_new`. */
    constructor (hash: string -> nat, size: nat)
      ensures Valid() && contents == map[] && this.hash == hash
      ensures this.size == if size < 128 then 128 else size
      ensures fresh(key) && fresh(val) && fresh(hashes)
    {
      var m := if size < MINIMAL_SIZE then MINIMAL_SIZE else size;
      this.hash, this.size, n, contents := hash, m, 0, map[];
      key := new Option<string>[m](_ => None);
      val := new Option<string>[m](_ => None);
      hashes := new nat[m](_ => 0);
      new;
      assert Occupied(key[..]) == {};
    }

    /** `dictionary_grow`: twice the slots, the same contents. */
    method Grow()
      requires Valid()
      modifies this`key, this`val, this`hashes, this`size
      ensures Valid() && size == 2 * old(size) && fresh(key) && fresh(val) && fresh(hashes)
    {
      hide Holds;
      Enlarged(key[..], val[..], hashes[..], hash, contents);
      var newVal := Doubled(val, None);
      var newKey := Doubled(key, None);
      var newHash := Doubled(hashes, 0);
      key, val, hashes, size := newKey, newVal, newHash, 2 * size;
    }

    /** The scan that `dictionary_get`, `dictionary_set` and `dictionary_unset` share: the slot of a
        key, or the number of slots. */
    method FindSlot(k: string) returns (i: nat)
      requires Valid()
      ensures if k in contents then i < size && key[i] == Some(k) else i == size
    {
      var h := hash(k);
      i := 0;
      while i < size
        invariant 0 <= i <= size && forall j :: 0 <= j < i ==> key[j] != Some(k)
      {
        if key[i].Some? && h == hashes[i] && key[i].value == k {
          assert key[..][i] == Some(k);
          return;
        }
        assert key[..][i] == key[i];
        i := i + 1;
      }
      NotHeld(key[..], val[..], hashes[..], hash, contents, k);
    }

    /** `dictionary_get`. */
    method Get(k: string, def: Option<string>) returns (v: Option<string>)
      requires Valid()
      ensures v == if k in contents then contents[k] else def
    {
      var i := FindSlot(k);
      if i < size {
        assert key[..][i] == Some(k);
        v := val[i];
      } else {
        v := def;
      }
    }

    /** The probe for a free slot: from slot `n`, wrapping around. It ends because not all slots are
        in use. */
    method FreeSlot() returns (i: nat)
      requires Valid() && n < size
      ensures i < size && key[i].None?
    {
      ghost var f := FreeSlotExists(key[..]);
      i := n;
      while key[i].Some?
        invariant 0 <= i < size
        decreases if i <= f then f - i else f - i + size
      {
        i := i + 1;
        if i == size {
          i := 0;
        }
      }
    }

    method Overwrite(i: nat, v: Option<string>)
      requires Valid() && i < size && key[i].Some?
      modifies val, this`contents
      ensures Valid() && contents == old(contents)[key[i].value := v]
    {
      Overwritten(key[..], val[..], hashes[..], hash, contents, i, v);
      assert key[..][i] == key[i];
      contents := contents[key[i].value := v];
      ghost var vals := val[..];
      val[i] := v;
      assert val[..] == vals[i := v];
    }

    method Insert(k: string, v: Option<string>)
      requires Valid() && n < size && k !in contents
      modifies key, val, hashes, this`n, this`contents
      ensures Valid() && contents == old(contents)[k := v]
    {
      var i := FreeSlot();
      ghost var keys, vals, hs := key[..], val[..], hashes[..];
      Inserted(keys, vals, hs, hash, contents, i, k, v);
      key[i] := Some(k);
      val[i] := v;
      hashes[i] := hash(k);
      n := n + 1;
      contents := contents[k := v];
      assert key[..] == keys[i := Some(k)] && val[..] == vals[i := v] && hashes[..] == hs[i := hash(k)];
    }

    /** `dictionary_set`; a NULL key is refused. The arrays grow exactly when a new key meets full
        arrays. */
    method Set(k: Option<string>, v: Option<string>) returns (code: int)
      requires Valid()
      modifies this, key, val, hashes
      ensures Valid() && code == (if k.None? then -1 else 0)
      ensures contents == if k.None? then old(contents) else old(contents)[k.value := v]
      ensures size == if k.Some? && k.value !in old(contents) && old(n == size) then 2 * old(size) else old(size)
      ensures (key == old(key) && val == old(val) && hashes == old(hashes))
           || (fresh(key) && fresh(val) && fresh(hashes))
    {
      if k.None? {
        return -1;
      }
      if n > 0 {
        var i := FindSlot(k.value);
        if i < size {
          Overwrite(i, v);
          return 0;
        }
      }
      AsManyKeys(key[..], val[..], hashes[..], hash, contents);
      assert n == 0 ==> contents == map[];
      NotMoreThanSlots(key[..]);
      if n == size {
        Grow();
      }
      Insert(k.value, v);
      code := 0;
    }

    method Erase(i: nat)
      requires Valid() && i < size && key[i].Some?
      modifies key, val, hashes, this`n, this`contents
      ensures Valid() && contents == old(contents) - {old(key[i].value)}
    {
      ghost var keys, vals, hs := key[..], val[..], hashes[..];
      Erased(keys, vals, hs, hash, contents, i);
      contents := contents - {key[i].value};
      key[i] := None;
      val[i] := None;
      hashes[i] := 0;
      n := n - 1;
      assert key[..] == keys[i := None] && val[..] == vals[i := None] && hashes[..] == hs[i := 0];
    }

    /** `dictionary_unset`; a NULL key is ignored. */
    method Unset(k: Option<string>)
      requires Valid()
      modifies key, val, hashes, this`n, this`contents
      ensures Valid() && contents == if k.None? then old(contents) else old(contents) - {k.value}
    {
      if k.None? {
        return;
      }
      var i := FindSlot(k.value);
      if i >= size {
        return;
      }
      assert key[..][i] == k;
      Erase(i);
    }
  }
}
