/** Knuth-Morris-Pratt search of 3rd/uthash/utstring.h, in both directions. */
module UtString {

  // ---------- borders and the strong failure function ----------

  /** The first `k` characters are also the last `k` of the first `i`. */
  ghost predicate Border(s: string, i: nat, k: int)
    requires i <= |s|
  {
    0 <= k < i && s[..k] == s[i - k..i]
  }

  /** At position `i` the character after the border differs, so falling back to it can help. */
  predicate Useful(s: string, i: nat, k: nat)
    requires k < i <= |s|
  {
    i == |s| || s[k] != s[i]
  }

  /** The entry of the failure table: the longest useful border, or -1. */
  ghost predicate Strong(s: string, i: nat, j: int)
    requires i <= |s|
  {
    && -1 <= j < i
    && (0 <= j ==> Border(s, i, j) && Useful(s, i, j))
    && forall k {:trigger Border(s, i, k)} :: j < k && Border(s, i, k) ==> !Useful(s, i, k)
  }

  ghost predicate LongestBorder(s: string, i: nat, j: int)
    requires i <= |s|
  {
    && -1 <= j < i && (0 <= j ==> Border(s, i, j))
    && forall k {:trigger Border(s, i, k)} :: j < k ==> !Border(s, i, k)
  }

  lemma StrongIsUnique(s: string, i: nat, j: int, k: int)
    requires i <= |s| && Strong(s, i, j) && Strong(s, i, k)
    ensures j == k
  {
    var bj, bk := Border(s, i, j), Border(s, i, k);
  }

  lemma BorderOfBorder(s: string, i: nat, j: nat, k: nat)
    requires i <= |s| && Border(s, i, j) && k < j
    ensures Border(s, i, k) <==> Border(s, j, k)
  {
    assert s[i - k..i] == s[i - j..i][j - k..];
    assert s[j - k..j] == s[..j][j - k..];
  }

  lemma BorderExtends(s: string, i: nat, k: nat)
    requires i < |s| && k < i
    ensures Border(s, i + 1, k + 1) <==> Border(s, i, k) && s[k] == s[i]
  {
    var p, q := s[..k + 1], s[i - k..i + 1];
    assert p == s[..k] + [s[k]] && q == s[i - k..i] + [s[i]];
    if p == q {
      assert p[..k] == q[..k] && p[k] == q[k];
    }
  }

  // ---------- building the table ----------

  /** While the inner loop falls back: every border longer than `j` fails at `i`. */
  ghost predicate Candidate(s: string, i: nat, j: int)
    requires i < |s|
  {
    && -1 <= j < i && (0 <= j ==> Border(s, i, j))
    && forall k {:trigger Border(s, i, k)} :: j < k && Border(s, i, k) ==> s[k] != s[i]
  }

  lemma FallBack(s: string, i: nat, j: nat, t: int)
    requires i < |s| && Candidate(s, i, j) && s[i] != s[j] && Strong(s, j, t)
    ensures Candidate(s, i, t)
  {
    if 0 <= t {
      BorderOfBorder(s, i, j, t);
    }
    forall k {:trigger Border(s, i, k)} | t < k && Border(s, i, k)
      ensures s[k] != s[i]
    {
      if k < j {
        BorderOfBorder(s, i, j, k);
      }
    }
  }

  lemma LongestFollows(s: string, i: nat, j: int)
    requires i < |s| && Candidate(s, i, j) && (j == -1 || s[i] == s[j])
    ensures LongestBorder(s, i + 1, j + 1)
  {
    if 0 <= j {
      BorderExtends(s, i, j);
    }
    forall k {:trigger Border(s, i + 1, k)} | j + 1 < k
      ensures !Border(s, i + 1, k)
    {
      if k <= i {
        BorderExtends(s, i, k - 1);
      }
    }
  }

  lemma EntryFollows(s: string, i: nat, j: nat, t: int)
    requires i < |s| && LongestBorder(s, i, j) && Strong(s, j, t)
    ensures Strong(s, i, if s[i] == s[j] then t else j)
  {
    if s[i] == s[j] {
      if 0 <= t {
        BorderOfBorder(s, i, j, t);
      }
      forall k {:trigger Border(s, i, k)} | t < k && Border(s, i, k)
        ensures !Useful(s, i, k)
      {
        if k < j {
          BorderOfBorder(s, i, j, k);
        }
      }
    }
  }

  ghost predicate TableUpTo(s: string, table: seq<int>, n: nat)
  {
    n <= |table| && n <= |s| + 1 && forall x :: 0 <= x < n ==> Strong(s, x, table[x])
  }

  /** `_utstring_BuildTable` fills in the strong failure function. */
  method BuildTable(needle: string, table: array<int>)
    requires table.Length == |needle| + 1
    modifies table
    ensures TableUpTo(needle, table[..], |needle| + 1)
  {
    var i, j := 0, -1;
    table[i] := j;
    while i < |needle|
      invariant 0 <= i <= |needle| && -1 <= j < i
      invariant TableUpTo(needle, table[..], i + 1)
      invariant i < |needle| ==> LongestBorder(needle, i, j)
    {
      while j > -1 && needle[i] != needle[j]
        invariant -1 <= j < i
        invariant Candidate(needle, i, j) && TableUpTo(needle, table[..], i + 1)
        decreases j
      {
        assert Strong(needle, j, table[..][j]);
        FallBack(needle, i, j, table[j]);
        j := table[j];
      }
      LongestFollows(needle, i, j);
      i, j := i + 1, j + 1;
      ghost var before := table[..];
      if i < |needle| {
        assert Strong(needle, j, table[..][j]);
        EntryFollows(needle, i, j, table[j]);
        if needle[i] == needle[j] {
          table[i] := table[j];
        } else {
          table[i] := j;
        }
      } else {
        table[i] := j;
      }
      assert table[..i] == before[..i];
      assert Strong(needle, i, table[i]);
    }
  }

  // ---------- searching ----------

  predicate OccursAt(hay: string, needle: string, p: int)
  {
    0 <= p <= |hay| - |needle| && hay[p..p + |needle|] == needle
  }

  ghost predicate NoneBefore(hay: string, needle: string, q: int)
  {
    forall p {:trigger OccursAt(hay, needle, p)} :: p < q ==> !OccursAt(hay, needle, p)
  }

  /** The position of the first occurrence, or -1 if there is none. */
  ghost predicate IsFirst(hay: string, needle: string, pos: int)
  {
    if pos == -1 then NoneBefore(hay, needle, |hay| + 1)
    else OccursAt(hay, needle, pos) && NoneBefore(hay, needle, pos)
  }

  /** The first `i` characters of the needle have just been read. */
  predicate Read(hay: string, j: nat, needle: string, i: int)
  {
    0 <= i <= j <= |hay| && i <= |needle| && needle[..i] == hay[j - i..j]
  }

  lemma Mismatch(hay: string, j: nat, needle: string, i: nat, t: int)
    requires j < |hay| && i < |needle| && Read(hay, j, needle, i) && needle[i] != hay[j]
    requires Strong(needle, i, t) && NoneBefore(hay, needle, j - i)
    ensures NoneBefore(hay, needle, j - t)
    ensures 0 <= t ==> Read(hay, j, needle, t)
  {
    if 0 <= t {
      assert needle[i - t..i] == needle[..i][i - t..];
      assert hay[j - t..j] == hay[j - i..j][i - t..];
    }
    forall p | j - i <= p < j - t
      ensures !OccursAt(hay, needle, p)
    {
      var k := j - p;
      if OccursAt(hay, needle, p) && k <= i {
        assert needle[k] == hay[p..p + |needle|][k] == hay[j];
        assert needle[..k] == hay[p..p + |needle|][..k] == hay[p..j];
        assert needle[i - k..i] == needle[..i][i - k..];
        assert hay[p..j] == hay[j - i..j][i - k..];
        assert k < i ==> Border(needle, i, k);
      }
    }
  }

  /** `_utstring_find`. */
  method Find(hay: string, needle: string, table: array<int>) returns (position: int)
    requires needle != "" && table.Length == |needle| + 1
    requires TableUpTo(needle, table[..], |needle| + 1)
    ensures IsFirst(hay, needle, position)
  {
    hide Border, Useful, LongestBorder;
    position := -1;
    var i, j := 0, 0;
    while j < |hay| && |hay| - j + i >= |needle|
      invariant 0 <= i < |needle| && Read(hay, j, needle, i) && NoneBefore(hay, needle, j - i)
    {
      while i > -1 && needle[i] != hay[j]
        invariant -1 <= i < |needle| && (0 <= i ==> Read(hay, j, needle, i)) && NoneBefore(hay, needle, j - i)
        decreases i
      {
        assert Strong(needle, i, table[..][i]);
        Mismatch(hay, j, needle, i, table[i]);
        i := table[i];
      }
      ReadOne(hay, j, needle, i);
      i, j := i + 1, j + 1;
      if i >= |needle| {
        position := j - i;
        return;
      }
    }
  }

  // ---------- the mirror image ----------

  function Reverse(s: string): (r: string)
    ensures |r| == |s|
  {
    seq(|s|, i requires 0 <= i < |s| => s[|s| - 1 - i])
  }

  /** The backward table, entry for entry from the end, is the forward table of the reversed needle. */
  ghost predicate MirrorTable(s: string, table: seq<int>, n: nat)
  {
    n <= |s| + 1 == |table| && forall y :: |s| - n < y <= |s| ==> MirrorEntry(s, y, table[y])
  }

  ghost predicate MirrorEntry(s: string, y: int, value: int)
    requires 0 <= y <= |s|
  {
    Strong(Reverse(s), |s| - y, |s| - 1 - value)
  }

  ghost predicate MirrorCandidate(s: string, i: nat, j: int)
    requires i < |s|
  {
    Candidate(Reverse(s), |s| - 1 - i, |s| - 1 - j)
  }

  ghost predicate MirrorLongest(s: string, i: int, j: int)
    requires -1 <= i < |s|
  {
    LongestBorder(Reverse(s), |s| - 1 - i, |s| - 1 - j)
  }

  lemma MirrorStart(s: string)
    ensures MirrorEntry(s, |s|, |s|) && (s != "" ==> MirrorLongest(s, |s| - 1, |s|))
  {
  }

  lemma MirrorEnd(s: string, j: int)
    requires MirrorLongest(s, -1, j)
    ensures MirrorEntry(s, 0, j)
  {
  }

  lemma MirrorFallBack(s: string, i: nat, j: nat, t: int)
    requires i < j < |s| && MirrorCandidate(s, i, j) && s[i] != s[j] && MirrorEntry(s, j + 1, t)
    ensures MirrorCandidate(s, i, t) && j < t <= |s|
  {
    FallBack(Reverse(s), |s| - 1 - i, |s| - 1 - j, |s| - 1 - t);
  }

  lemma MirrorLongestFollows(s: string, i: nat, j: int)
    requires i < j <= |s| && MirrorCandidate(s, i, j) && (j == |s| || s[i] == s[j])
    ensures MirrorLongest(s, i - 1, j - 1)
  {
    LongestFollows(Reverse(s), |s| - 1 - i, |s| - 1 - j);
  }

  lemma MirrorEntryFollows(s: string, i: nat, j: nat, t: int)
    requires i < j < |s| && MirrorLongest(s, i, j) && MirrorEntry(s, j + 1, t)
    ensures MirrorEntry(s, i + 1, if s[i] == s[j] then t else j)
  {
    EntryFollows(Reverse(s), |s| - 1 - i, |s| - 1 - j, |s| - 1 - t);
  }

  /** `_utstring_BuildTableR`. */
  method BuildTableR(needle: string, table: array<int>)
    requires table.Length == |needle| + 1
    modifies table
    ensures MirrorTable(needle, table[..], |needle| + 1)
  {
    hide MirrorEntry;
    MirrorStart(needle);
    var i, j := |needle| - 1, |needle|;
    table[i + 1] := j;
    while i >= 0
      invariant -1 <= i < |needle| && i < j <= |needle|
      invariant MirrorTable(needle, table[..], |needle| - i)
      invariant 0 <= i ==> MirrorLongest(needle, i, j)
    {
      while j < |needle| && needle[i] != needle[j]
        invariant i < j <= |needle|
        invariant MirrorCandidate(needle, i, j) && MirrorTable(needle, table[..], |needle| - i)
        decreases |needle| - j
      {
        assert MirrorEntry(needle, j + 1, table[..][j + 1]);
        MirrorFallBack(needle, i, j, table[j + 1]);
        j := table[j + 1];
      }
      MirrorLongestFollows(needle, i, j);
      i, j := i - 1, j - 1;
      ghost var before := table[..];
      if i >= 0 {
        assert MirrorEntry(needle, j + 1, table[..][j + 1]);
        MirrorEntryFollows(needle, i, j, table[j + 1]);
        if needle[i] == needle[j] {
          table[i + 1] := table[j + 1];
        } else {
          table[i + 1] := j;
        }
      } else {
        MirrorEnd(needle, j);
        table[i + 1] := j;
      }
      assert table[i + 2..] == before[i + 2..];
      assert MirrorEntry(needle, i + 1, table[i + 1]);
    }
  }

  lemma OccursReversed(hay: string, needle: string, p: int)
    ensures OccursAt(hay, needle, p) <==> OccursAt(Reverse(hay), Reverse(needle), |hay| - |needle| - p)
  {
    var q := |hay| - |needle| - p;
    if 0 <= p <= |hay| - |needle| {
      var w, v := hay[p..p + |needle|], Reverse(hay)[q..q + |needle|];
      assert forall x :: 0 <= x < |needle| ==> v[x] == w[|needle| - 1 - x];
      if w == needle {
        assert v == Reverse(needle);
      }
      if v == Reverse(needle) {
        forall x | 0 <= x < |needle|
          ensures w[x] == needle[x]
        {
          assert v[|needle| - 1 - x] == w[x];
          assert Reverse(needle)[|needle| - 1 - x] == needle[x];
        }
      }
    }
  }

  ghost predicate NoneAfter(hay: string, needle: string, q: int)
  {
    forall p {:trigger OccursAt(hay, needle, p)} :: q < p ==> !OccursAt(hay, needle, p)
  }

  /** The position of the last occurrence, or -1 if there is none. */
  ghost predicate IsLast(hay: string, needle: string, pos: int)
  {
    if pos == -1 then NoneAfter(hay, needle, -1)
    else OccursAt(hay, needle, pos) && NoneAfter(hay, needle, pos)
  }

  /** Searching backward is searching forward in the reversed text, with the position reflected. */
  lemma LastIsFirstReversed(hay: string, needle: string, pos: int)
    requires -1 <= pos
    ensures IsLast(hay, needle, pos) <==>
      IsFirst(Reverse(hay), Reverse(needle), if pos == -1 then -1 else |hay| - |needle| - pos)
        && (pos == -1 || pos <= |hay| - |needle|)
  {
    forall p
      ensures OccursAt(hay, needle, p) <==> OccursAt(Reverse(hay), Reverse(needle), |hay| - |needle| - p)
    {
      OccursReversed(hay, needle, p);
    }
    forall q
      ensures OccursAt(Reverse(hay), Reverse(needle), q) <==> OccursAt(hay, needle, |hay| - |needle| - q)
    {
      OccursReversed(hay, needle, |hay| - |needle| - q);
    }
  }

  /** The needle from `i + 1` on has just been read, backwards, and there is no occurrence to the
      right of where it would start. */
  ghost predicate MirrorRead(hay: string, j: int, needle: string, i: int)
  {
    && -1 <= j < |hay| && -1 <= i < |needle|
    && Read(Reverse(hay), |hay| - 1 - j, Reverse(needle), |needle| - 1 - i)
  }

  ghost predicate MirrorNone(hay: string, j: int, needle: string, i: int)
  {
    NoneBefore(Reverse(hay), Reverse(needle), |hay| - 1 - j - (|needle| - 1 - i))
  }

  lemma MirrorMismatch(hay: string, j: nat, needle: string, i: nat, t: int)
    requires j < |hay| && i < |needle| && MirrorRead(hay, j, needle, i) && needle[i] != hay[j]
    requires MirrorEntry(needle, i + 1, t) && MirrorNone(hay, j, needle, i)
    ensures MirrorNone(hay, j, needle, t) && i < t <= |needle|
    ensures t < |needle| ==> MirrorRead(hay, j, needle, t)
  {
    Mismatch(Reverse(hay), |hay| - 1 - j, Reverse(needle), |needle| - 1 - i, |needle| - 1 - t);
  }

  lemma MirrorReadOne(hay: string, j: nat, needle: string, i: nat)
    requires j < |hay| && i <= |needle| && (i < |needle| ==> MirrorRead(hay, j, needle, i) && needle[i] == hay[j])
    requires needle != "" && MirrorNone(hay, j, needle, i)
    ensures MirrorRead(hay, j - 1, needle, i - 1) && MirrorNone(hay, j - 1, needle, i - 1)
  {
    ReadOne(Reverse(hay), |hay| - 1 - j, Reverse(needle), |needle| - 1 - i);
  }

  lemma MirrorFound(hay: string, j: int, needle: string)
    requires needle != "" && MirrorRead(hay, j, needle, -1) && MirrorNone(hay, j, needle, -1)
    ensures IsLast(hay, needle, j + 1)
  {
    var p := |hay| - 1 - j - |needle|;
    assert OccursAt(Reverse(hay), Reverse(needle), p);
    LastIsFirstReversed(hay, needle, j + 1);
  }

  lemma MirrorNotFound(hay: string, j: int, needle: string, i: nat)
    requires i < |needle| && MirrorRead(hay, j, needle, i) && MirrorNone(hay, j, needle, i) && (j < 0 || j < i)
    ensures IsLast(hay, needle, -1)
  {
    LastIsFirstReversed(hay, needle, -1);
  }

  /** `_utstring_findR`. */
  method FindR(hay: string, needle: string, table: array<int>) returns (position: int)
    requires needle != "" && table.Length == |needle| + 1
    requires MirrorTable(needle, table[..], |needle| + 1)
    ensures IsLast(hay, needle, position)
  {
    position := -1;
    var i, j := |needle| - 1, |hay| - 1;
    while j >= 0 && j >= i
      invariant 0 <= i < |needle| && MirrorRead(hay, j, needle, i) && MirrorNone(hay, j, needle, i)
      decreases j
    {
      while i < |needle| && needle[i] != hay[j]
        invariant 0 <= i <= |needle|
        invariant (i < |needle| ==> MirrorRead(hay, j, needle, i)) && MirrorNone(hay, j, needle, i)
        decreases |needle| - i
      {
        assert MirrorEntry(needle, i + 1, table[..][i + 1]);
        MirrorMismatch(hay, j, needle, i, table[i + 1]);
        i := table[i + 1];
      }
      MirrorReadOne(hay, j, needle, i);
      i, j := i - 1, j - 1;
      if i < 0 {
        MirrorFound(hay, j, needle);
        position := j + 1;
        return;
      }
    }
    MirrorNotFound(hay, j, needle, i);
  }

  lemma ReadOne(hay: string, j: nat, needle: string, i: int)
    requires j < |hay| && -1 <= i < |needle| && (0 <= i ==> Read(hay, j, needle, i) && needle[i] == hay[j])
    ensures Read(hay, j + 1, needle, i + 1)
  {
    if 0 <= i {
      assert needle[..i + 1] == needle[..i] + [needle[i]];
      assert hay[j - i..j + 1] == hay[j - i..j] + [hay[j]];
    }
  }

  // ---------- the entry points ----------

  /** A start position counts from the front, or from the end when it is negative. */
  function Start(body: string, position: int): int
  {
    if position < 0 then |body| + position else position
  }

  lemma OccursInSuffix(body: string, start: nat, needle: string, p: int)
    requires start <= |body| && start <= p
    ensures OccursAt(body[start..], needle, p - start) <==> OccursAt(body, needle, p)
  {
    if p + |needle| <= |body| {
      var a, b := body[start..][p - start..p - start + |needle|], body[p..p + |needle|];
      assert forall i :: 0 <= i < |needle| ==> a[i] == b[i];
      assert a == b;
    }
  }

  lemma OccursInPrefix(body: string, len: nat, needle: string, p: int)
    requires len <= |body| && p + |needle| <= len
    ensures OccursAt(body[..len], needle, p) <==> OccursAt(body, needle, p)
  {
    if 0 <= p {
      var a, b := body[..len][p..p + |needle|], body[p..p + |needle|];
      assert forall i :: 0 <= i < |needle| ==> a[i] == b[i];
      assert a == b;
    }
  }

  /** `utstring_find`: the first occurrence at or after the start. A start before the buffer would
      be read through. */
  method UtstringFind(body: string, position: int, needle: string) returns (r: int)
    requires -|body| <= position
    ensures r == -1 || (needle != "" && OccursAt(body, needle, r))
    ensures r != -1 ==> (if position < 0 then |body| + position <= r else position <= r)
    ensures needle != "" && 0 <= position ==>
      forall p :: position <= p && OccursAt(body, needle, p) ==> r != -1 && r <= p
    ensures needle != "" && position < 0 ==>
      forall p :: |body| + position <= p && OccursAt(body, needle, p) ==> r != -1 && r <= p
  {
    r := -1;
    var start := Start(body, position);
    if |body| - start >= |needle| && |needle| > 0 {
      var table := new int[|needle| + 1];
      BuildTable(needle, table);
      var hay := body[start..];
      r := Find(hay, needle, table);
      forall p | start <= p
        ensures OccursAt(hay, needle, p - start) <==> OccursAt(body, needle, p)
      {
        OccursInSuffix(body, start, needle, p);
      }
      if r >= 0 {
        assert OccursAt(hay, needle, (r + start) - start);
        r := r + start;
      }
    }
  }

  /** `utstring_findR`: the last occurrence that ends at or before the start. */
  method UtstringFindR(body: string, position: int, needle: string) returns (r: int)
    requires position < |body|
    ensures r == -1 || (needle != "" && OccursAt(body, needle, r))
    ensures r != -1 ==> r + |needle| - 1 <= if position < 0 then |body| + position else position
    ensures needle != "" && 0 <= position ==>
      forall p :: p + |needle| - 1 <= position && OccursAt(body, needle, p) ==> r != -1 && p <= r
    ensures needle != "" && position < 0 ==>
      forall p :: p + |needle| - 1 <= |body| + position && OccursAt(body, needle, p) ==> r != -1 && p <= r
  {
    r := -1;
    var len := Start(body, position) + 1;
    if len >= |needle| && |needle| > 0 {
      var table := new int[|needle| + 1];
      BuildTableR(needle, table);
      var hay := body[..len];
      r := FindR(hay, needle, table);
      forall p | p + |needle| <= len
        ensures OccursAt(hay, needle, p) <==> OccursAt(body, needle, p)
      {
        OccursInPrefix(body, len, needle, p);
      }
    }
  }
}
