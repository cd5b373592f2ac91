/** The unique-index mapping used to remove duplicate vertices and duplicate
    collision triangles: one scan over a sequence of hashes assigns each
    distinct hash a new index in order of first occurrence.
    `v_map` sends an old position to its new index, `v_map_inverse` sends a
    new index to the old position that represents it. Hashes are abstract
    integers; how they are computed from vertices is not part of this model. */
module UniqueMap {

  /** The first position at or after `j` whose hash equals `h[i]`. */
  function FirstFrom(h: seq<int>, i: nat, j: nat): (r: nat)
    requires i < |h| && j <= i
    requires forall k :: 0 <= k < j ==> h[k] != h[i]
    ensures j <= r <= i && h[r] == h[i]
    ensures forall k :: 0 <= k < r ==> h[k] != h[i]
    decreases i - j
  {
    if h[j] == h[i] then j else FirstFrom(h, i, j + 1)
  }

  /** The earliest position holding the same hash as position `i`. */
  function First(h: seq<int>, i: nat): (r: nat)
    requires i < |h|
    ensures r <= i && h[r] == h[i]
    ensures forall k :: 0 <= k < r ==> h[k] != h[i]
  {
    FirstFrom(h, i, 0)
  }

  /** Positions with the same hash share their earliest position. */
  lemma FirstOfEqual(h: seq<int>, i: nat, j: nat)
    requires i < |h| && j < |h| && h[i] == h[j]
    ensures First(h, i) == First(h, j)
  {
  }

  /** A position is a representative when no earlier position has its hash. */
  predicate IsFirst(h: seq<int>, p: nat)
    requires p < |h|
  {
    First(h, p) == p
  }

  /** The representatives among the first `n` positions, in increasing
      order: the value of `v_map_inverse` after `n` steps of the scan. */
  function Firsts(h: seq<int>, n: nat): seq<nat>
    requires n <= |h|
  {
    if n == 0 then []
    else if IsFirst(h, n - 1) then Firsts(h, n - 1) + [n - 1]
    else Firsts(h, n - 1)
  }

  /** `Firsts(h, n)` lists exactly the representatives below `n`, in
      strictly increasing order. */
  lemma {:induction false} FirstsExactly(h: seq<int>, n: nat)
    requires n <= |h|
    ensures forall k :: 0 <= k < |Firsts(h, n)| ==> Firsts(h, n)[k] < n && IsFirst(h, Firsts(h, n)[k])
    ensures forall a, b :: 0 <= a < b < |Firsts(h, n)| ==> Firsts(h, n)[a] < Firsts(h, n)[b]
    ensures forall p :: 0 <= p < n && IsFirst(h, p) ==> p in Firsts(h, n)
  {
    if n > 0 {
      FirstsExactly(h, n - 1);
    }
  }

  /** The new index of old position `i`: how many representatives come
      before the representative of `i`. */
  function NewIndex(h: seq<int>, i: nat): nat
    requires i < |h|
  {
    |Firsts(h, First(h, i))|
  }

  /** `v_map` */
  function VMap(h: seq<int>): (r: seq<nat>)
    ensures |r| == |h|
    ensures forall i :: 0 <= i < |h| ==> r[i] == NewIndex(h, i)
  {
    seq(|h|, i requires 0 <= i < |h| => NewIndex(h, i))
  }

  /** `v_map_inverse` */
  function VMapInverse(h: seq<int>): seq<nat>
  {
    Firsts(h, |h|)
  }

  lemma {:induction false} FirstsPrefix(h: seq<int>, m: nat, n: nat)
    requires m <= n <= |h|
    ensures Firsts(h, m) <= Firsts(h, n)
    decreases n - m
  {
    if m < n {
      FirstsPrefix(h, m, n - 1);
    }
  }

  /** The representative of `i` sits in `v_map_inverse` at the new index of
      `i`. */
  lemma InverseAtNewIndex(h: seq<int>, i: nat)
    requires i < |h|
    ensures NewIndex(h, i) < |VMapInverse(h)|
    ensures VMapInverse(h)[NewIndex(h, i)] == First(h, i)
  {
    var p := First(h, i);
    assert IsFirst(h, p) by {
      FirstOfEqual(h, i, p);
    }
    FirstsPrefix(h, p + 1, |h|);
    assert Firsts(h, p + 1) == Firsts(h, p) + [p];
  }

  /** Every new index is below the number of distinct hashes; the old
      position it maps back to is the first occurrence of the same hash. */
  lemma VMapRepresentative(h: seq<int>, i: nat)
    requires i < |h|
    ensures VMap(h)[i] < |VMapInverse(h)|
    ensures VMapInverse(h)[VMap(h)[i]] == First(h, i) <= i
    ensures h[VMapInverse(h)[VMap(h)[i]]] == h[i]
  {
    InverseAtNewIndex(h, i);
  }

  /** `v_map_inverse` is strictly increasing and each entry is an old
      position, so there are never more new indices than old ones. */
  lemma VMapInverseIncreasing(h: seq<int>)
    ensures forall a, b :: 0 <= a < b < |VMapInverse(h)| ==> VMapInverse(h)[a] < VMapInverse(h)[b]
    ensures forall k :: 0 <= k < |VMapInverse(h)| ==> VMapInverse(h)[k] < |h|
    ensures |VMapInverse(h)| <= |h|
  {
    FirstsExactly(h, |h|);
    InverseEntriesBound(VMapInverse(h), |h|);
  }

  lemma {:induction false} InverseEntriesBound(r: seq<nat>, n: nat)
    requires forall k :: 0 <= k < |r| ==> r[k] < n
    requires forall a, b :: 0 <= a < b < |r| ==> r[a] < r[b]
    ensures |r| <= n
  {
    if r != [] {
      var init := r[..|r| - 1];
      InverseEntriesBound(init, r[|r| - 1]);
    }
  }

  /** `v_map[v_map_inverse[k]] == k`: a representative keeps its own new
      index, so every new index is used. */
  lemma VMapOfInverse(h: seq<int>, k: nat)
    requires k < |VMapInverse(h)|
    ensures VMapInverse(h)[k] < |h|
    ensures VMap(h)[VMapInverse(h)[k]] == k
  {
    var inv := VMapInverse(h);
    FirstsExactly(h, |h|);
    var p := inv[k];
    InverseAtNewIndex(h, p);
    var n := NewIndex(h, p);
    assert inv[n] == p;
  }

  /** Two old positions get the same new index exactly when their hashes
      are equal. */
  lemma VMapSameIff(h: seq<int>, i: nat, j: nat)
    requires i < |h| && j < |h|
    ensures VMap(h)[i] == VMap(h)[j] <==> h[i] == h[j]
  {
    InverseAtNewIndex(h, i);
    InverseAtNewIndex(h, j);
    if h[i] == h[j] {
      FirstOfEqual(h, i, j);
    }
  }

  /** Without duplicate hashes the mapping is the identity. */
  lemma {:induction false} DistinctIsIdentity(h: seq<int>)
    requires forall a, b :: 0 <= a < b < |h| ==> h[a] != h[b]
    ensures VMapInverse(h) == seq(|h|, k requires 0 <= k < |h| => k)
    ensures forall i :: 0 <= i < |h| ==> VMap(h)[i] == i
  {
    DistinctFirsts(h, |h|);
    forall i | 0 <= i < |h| ensures VMap(h)[i] == i {
      DistinctFirsts(h, i);
    }
  }

  lemma {:induction false} DistinctFirsts(h: seq<int>, n: nat)
    requires n <= |h|
    requires forall a, b :: 0 <= a < b < |h| ==> h[a] != h[b]
    ensures Firsts(h, n) == seq(n, k requires 0 <= k < n => k)
  {
    if n > 0 {
      DistinctFirsts(h, n - 1);
      assert First(h, n - 1) == n - 1;
    }
  }

  /** A hash seen before: the new index is the one recorded for it and
      `v_map_inverse` does not grow. */
  lemma StepSeen(h: seq<int>, i: nat, j: nat)
    requires j < i < |h| && h[j] == h[i]
    ensures NewIndex(h, i) == NewIndex(h, j)
    ensures Firsts(h, i + 1) == Firsts(h, i)
  {
    FirstOfEqual(h, i, j);
  }

  /** A new hash: position `i` gets the next new index and is appended to
      `v_map_inverse`. */
  lemma StepNew(h: seq<int>, i: nat)
    requires i < |h| && h[i] !in h[..i]
    ensures NewIndex(h, i) == |Firsts(h, i)|
    ensures Firsts(h, i + 1) == Firsts(h, i) + [i]
  {
  }

  /** The dictionary `k_map` after `n` steps of the scan: every hash seen
      so far, mapped to the new index it was given. */
  function KMap(h: seq<int>, n: nat): map<int, nat>
    requires n <= |h|
  {
    if n == 0 then map[]
    else if h[n - 1] in KMap(h, n - 1) then KMap(h, n - 1)
    else KMap(h, n - 1)[h[n - 1] := |Firsts(h, n - 1)|]
  }

  /** Every hash seen so far is in `k_map`, mapped to the new index of its
      positions. */
  lemma {:induction false} KMapHas(h: seq<int>, n: nat, j: nat)
    requires j < n <= |h|
    ensures h[j] in KMap(h, n) && KMap(h, n)[h[j]] == NewIndex(h, j)
  {
    var x := h[n - 1];
    if x in KMap(h, n - 1) {
      if j < n - 1 {
        KMapHas(h, n - 1, j);
      } else {
        var k := KMapSeen(h, n - 1, x);
        StepSeen(h, n - 1, k);
        KMapHas(h, n - 1, k);
      }
    } else {
      if j < n - 1 {
        KMapHas(h, n - 1, j);
      } else {
        KMapUnseen(h, n - 1);
        StepNew(h, n - 1);
      }
    }
  }

  /** A hash missing from `k_map` has not been seen. */
  lemma KMapUnseen(h: seq<int>, n: nat)
    requires n < |h| && h[n] !in KMap(h, n)
    ensures h[n] !in h[..n]
  {
    forall j | 0 <= j < n ensures h[..n][j] != h[n] {
      KMapHas(h, n, j);
    }
  }

  /** Every key of `k_map` is a hash seen so far. */
  lemma {:induction false} KMapSeen(h: seq<int>, n: nat, x: int) returns (j: nat)
    requires n <= |h| && x in KMap(h, n)
    ensures j < n && h[j] == x
  {
    if x in KMap(h, n - 1) {
      j := KMapSeen(h, n - 1, x);
    } else {
      j := n - 1;
    }
  }

  /** The scan written out: `k_map` maps each hash seen so far to its new
      index, `index` counts the distinct hashes seen, and `v_map` starts as
      a list of zeros that is overwritten position by position. */
  method ComputeUniqueMap(h: seq<int>) returns (vMap: seq<nat>, vMapInverse: seq<nat>)
    ensures vMap == VMap(h)
    ensures vMapInverse == VMapInverse(h)
  {
    vMap := seq(|h|, _ => 0);
    var kMap: map<int, nat> := map[];
    var index: nat := 0;
    vMapInverse := [];
    var i := 0;
    while i < |h|
      invariant 0 <= i <= |h| && |vMap| == |h|
      invariant vMapInverse == Firsts(h, i)
      invariant index == |vMapInverse|
      invariant kMap == KMap(h, i)
      invariant forall j :: 0 <= j < i ==> vMap[j] == NewIndex(h, j)
    {
      if h[i] in kMap {
        var j := KMapSeen(h, i, h[i]);
        StepSeen(h, i, j);
        KMapHas(h, i, j);
        vMap := vMap[i := kMap[h[i]]];
      } else {
        KMapUnseen(h, i);
        StepNew(h, i);
        kMap := kMap[h[i] := index];
        vMap := vMap[i := index];
        vMapInverse := vMapInverse + [i];
        index := index + 1;
      }
      i := i + 1;
    }
  }

  /** The worked example: hashes a, b, a, c. */
  lemma UniqueMapExample(a: int, b: int, c: int)
    requires a != b && a != c && b != c
    ensures VMap([a, b, a, c]) == [0, 1, 0, 2]
    ensures VMapInverse([a, b, a, c]) == [0, 1, 3]
  {
    var h := [a, b, a, c];
    StepNew(h, 0);
    assert Firsts(h, 1) == [0];
    StepNew(h, 1);
    assert Firsts(h, 2) == [0, 1];
    StepSeen(h, 2, 0);
    StepNew(h, 3);
    assert Firsts(h, 4) == [0, 1, 3];
  }
}
