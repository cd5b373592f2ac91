/** SpellOptimizeCollisionGeometry: removing duplicate vertices and
    triangles from a packed collision shape under a MOPP tree, and
    recounting the vertices of its sub-shapes. */
module Collision {
  import opened Common
  import opened UniqueMap
  import opened Geometry

  /** One hkTriangle: three corners and a face normal (welding info is
      rebuilt later and not modelled). */
  datatype HavokTriangle = HavokTriangle(triangle: Triangle, normal: Vector3)

  /** hkPackedNiTriStripsData. */
  class PackedStripsData {
    var numVertices: nat
    var vertices: seq<Vector3>
    var numTriangles: nat
    var triangles: seq<HavokTriangle>

    predicate Valid()
      reads this
    {
      |vertices| == numVertices && |triangles| == numTriangles
    }
  }

  /** bhkPackedNiTriStripsShape: its data and the vertex count of each
      sub-shape. */
  class PackedShape {
    var subShapeVertices: seq<nat>
    var data: PackedStripsData

    constructor(counts: seq<nat>, d: PackedStripsData)
      ensures subShapeVertices == counts && data == d
    {
      subShapeVertices, data := counts, d;
    }
  }

  // -------------------------------------------------- sub-shape counting

  predicate Increasing(s: seq<nat>)
  {
    forall a, b :: 0 <= a < b < |s| ==> s[a] < s[b]
  }

  /** How many new vertices have a representative old index below `bound`. */
  function CountBelow(inv: seq<nat>, bound: int): (n: nat)
    ensures n <= |inv|
  {
    if inv == [] then 0
    else CountBelow(inv[..|inv| - 1], bound) + (if inv[|inv| - 1] < bound then 1 else 0)
  }

  /** How many new vertices have a representative old index in [lo, hi). */
  function Between(inv: seq<nat>, lo: int, hi: int): nat
  {
    if inv == [] then 0
    else Between(inv[..|inv| - 1], lo, hi) + (if lo <= inv[|inv| - 1] < hi then 1 else 0)
  }

  /** The old index range of sub-shape `s` starts at `first + Sum(counts[..s])`,
      where `first` is the initial value of the running boundary. */
  function Boundary(counts: seq<nat>, s: nat, first: int): int
    requires s <= |counts|
  {
    first + Sum(counts[..s])
  }

  /** The counts the scan produces: sub-shape s gets the new vertices whose
      old index lies between its boundary and the next one. With `first`
      equal to 0 these are the sub-shape's own old vertices. */
  function SubShapeCounts(inv: seq<nat>, counts: seq<nat>, first: int): (r: seq<nat>)
    ensures |r| == |counts|
  {
    seq(|counts|, s requires 0 <= s < |counts| =>
      Between(inv, Boundary(counts, s, first), Boundary(counts, s + 1, first)))
  }

  lemma {:induction false} BetweenIsDifference(inv: seq<nat>, lo: int, hi: int)
    requires lo <= hi
    ensures Between(inv, lo, hi) == CountBelow(inv, hi) - CountBelow(inv, lo)
    ensures CountBelow(inv, lo) <= CountBelow(inv, hi)
    decreases |inv|
  {
    if inv != [] {
      BetweenIsDifference(inv[..|inv| - 1], lo, hi);
    }
  }

  /** In an increasing sequence the entries below a bound form a prefix,
      and CountBelow is its length. */
  lemma {:induction false} CountBelowIsPrefix(inv: seq<nat>, bound: int)
    requires Increasing(inv)
    ensures forall k :: 0 <= k < CountBelow(inv, bound) ==> inv[k] < bound
    ensures CountBelow(inv, bound) < |inv| ==> inv[CountBelow(inv, bound)] >= bound
    decreases |inv|
  {
    if inv != [] {
      var init := inv[..|inv| - 1];
      assert Increasing(init);
      CountBelowIsPrefix(init, bound);
      if CountBelow(init, bound) < |init| {
        assert inv[CountBelow(init, bound)] < inv[|inv| - 1];
      }
    }
  }

  /** Conversely, a prefix of entries below the bound followed by one
      that is not (or by the end) has length CountBelow. */
  lemma {:induction false} PrefixBelowIsCount(inv: seq<nat>, bound: int, n: nat)
    requires Increasing(inv) && n <= |inv|
    requires forall k :: 0 <= k < n ==> inv[k] < bound
    requires n == |inv| || inv[n] >= bound
    ensures CountBelow(inv, bound) == n
    decreases |inv|
  {
    if inv != [] {
      var init := inv[..|inv| - 1];
      assert Increasing(init);
      if n == |inv| {
        PrefixBelowIsCount(init, bound, n - 1);
      } else {
        assert inv[|inv| - 1] >= inv[n];
        PrefixBelowIsCount(init, bound, n);
      }
    }
  }

  lemma BoundaryStep(counts: seq<nat>, s: nat, first: int)
    requires s < |counts|
    ensures Boundary(counts, s + 1, first) == Boundary(counts, s, first) + counts[s]
  {
    assert counts[..s + 1][..s] == counts[..s];
  }

  /** The scan over the sub-shapes: a running boundary starting at `first`
      grows by each old count, and the new vertices are taken in order
      while their old index is strictly below it. The counts are updated
      in place. The source starts the boundary at -1. */
  method FixSubShapeCounts(inv: seq<nat>, counts: seq<nat>, first: int) returns (r: seq<nat>)
    requires Increasing(inv) && first <= 0
    ensures r == SubShapeCounts(inv, counts, first)
  {
    r := counts;
    var oldMaxIndex := first;
    var newI := 0;
    assert CountBelow(inv, first) == 0 by {
      PrefixBelowIsCount(inv, first, 0);
    }
    var s := 0;
    while s < |r|
      invariant 0 <= s <= |r| == |counts|
      invariant forall k :: s <= k < |r| ==> r[k] == counts[k]
      invariant forall k :: 0 <= k < s ==> r[k] == SubShapeCounts(inv, counts, first)[k]
      invariant oldMaxIndex == Boundary(counts, s, first)
      invariant newI == CountBelow(inv, oldMaxIndex)
    {
      var numVertices := 0;
      ghost var lo := oldMaxIndex;
      BoundaryStep(counts, s, first);
      oldMaxIndex := oldMaxIndex + r[s];
      CountBelowIsPrefix(inv, lo);
      BetweenIsDifference(inv, lo, oldMaxIndex);
      while newI < |inv| && inv[newI] < oldMaxIndex
        invariant CountBelow(inv, lo) <= newI <= |inv|
        invariant numVertices == newI - CountBelow(inv, lo)
        invariant forall k :: 0 <= k < newI ==> inv[k] < oldMaxIndex
      {
        numVertices := numVertices + 1;
        newI := newI + 1;
      }
      PrefixBelowIsCount(inv, oldMaxIndex, newI);
      r := r[s := numVertices];
      s := s + 1;
    }
  }

  /** The counts of the first n sub-shapes add up to the new vertices
      between the first boundary and the n-th. */
  lemma {:induction false} SubShapeCountsTelescope(inv: seq<nat>, counts: seq<nat>, first: int, n: nat)
    requires n <= |counts|
    ensures Boundary(counts, 0, first) <= Boundary(counts, n, first)
    ensures Sum(SubShapeCounts(inv, counts, first)[..n]) ==
      CountBelow(inv, Boundary(counts, n, first)) - CountBelow(inv, Boundary(counts, 0, first))
  {
    assert counts[..0] == [];
    if n == 0 {
      BetweenIsDifference(inv, first, first);
    } else {
      SubShapeCountsTelescope(inv, counts, first, n - 1);
      BoundaryStep(counts, n - 1, first);
      var lo, hi := Boundary(counts, n - 1, first), Boundary(counts, n, first);
      BetweenIsDifference(inv, lo, hi);
      BetweenIsDifference(inv, Boundary(counts, 0, first), lo);
      var r := SubShapeCounts(inv, counts, first);
      assert r[..n][..n - 1] == r[..n - 1];
    }
  }

  /** Whatever the first boundary, the counts never add up to more than
      the new vertex count. */
  lemma SubShapeCountsBounded(inv: seq<nat>, counts: seq<nat>, first: int)
    ensures Sum(SubShapeCounts(inv, counts, first)) <= |inv|
  {
    SubShapeCountsTelescope(inv, counts, first, |counts|);
    assert SubShapeCounts(inv, counts, first)[..|counts|] == SubShapeCounts(inv, counts, first);
    assert counts[..|counts|] == counts;
  }

  /** With the boundary starting at 0, sub-shapes whose old counts cover
      every old vertex share out exactly the new vertices. */
  lemma SubShapeCountsCorrected(h: seq<int>, counts: seq<nat>)
    requires Sum(counts) == |h|
    ensures Sum(SubShapeCounts(VMapInverse(h), counts, 0)) == |VMapInverse(h)|
  {
    var inv := VMapInverse(h);
    VMapInverseIncreasing(h);
    SubShapeCountsTelescope(inv, counts, 0, |counts|);
    assert SubShapeCounts(inv, counts, 0)[..|counts|] == SubShapeCounts(inv, counts, 0);
    assert counts[..|counts|] == counts && counts[..0] == [];
    PrefixBelowIsCount(inv, 0, 0);
    PrefixBelowIsCount(inv, |h|, |inv|);
  }

  /** With one sub-shape the quick path (the new vertex count) agrees with
      the corrected scan. */
  lemma OneSubShapeAgrees(h: seq<int>)
    ensures SubShapeCounts(VMapInverse(h), [|h|], 0) == [|VMapInverse(h)|]
  {
    SubShapeCountsCorrected(h, [|h|]);
    var r := SubShapeCounts(VMapInverse(h), [|h|], 0);
    assert r[..1] == r && r[..0] == [];
  }

  /** The scan as written: two sub-shapes of one vertex each, no duplicates.
      Starting the boundary at -1 with a strict comparison moves the first
      vertex into the second sub-shape and drops the second vertex, so the
      counts add up to 1 instead of 2. */
  lemma SubShapeCountsAsWritten(a: int, b: int)
    requires a != b
    ensures VMapInverse([a, b]) == [0, 1]
    ensures SubShapeCounts(VMapInverse([a, b]), [1, 1], -1) == [0, 1]
    ensures SubShapeCounts(VMapInverse([a, b]), [1, 1], 0) == [1, 1]
  {
    DistinctIsIdentity([a, b]);
    assert VMapInverse([a, b]) == [0, 1];
    TwoSubShapes([0, 1], -1);
    TwoSubShapes([0, 1], 0);
  }

  /** Both counts for two one-vertex sub-shapes, for any first boundary. */
  lemma TwoSubShapes(inv: seq<nat>, first: int)
    requires |inv| == 2
    ensures SubShapeCounts(inv, [1, 1], first) ==
      [Between(inv, first, first + 1), Between(inv, first + 1, first + 2)]
    ensures Between(inv, first, first + 1) ==
      (if first <= inv[0] < first + 1 then 1 else 0) + (if first <= inv[1] < first + 1 then 1 else 0)
    ensures Between(inv, first + 1, first + 2) ==
      (if first + 1 <= inv[0] < first + 2 then 1 else 0) + (if first + 1 <= inv[1] < first + 2 then 1 else 0)
  {
    TwoOnesBoundaries(first);
    BetweenOfTwo(inv, first, first + 1);
    BetweenOfTwo(inv, first + 1, first + 2);
  }

  lemma TwoOnesBoundaries(first: int)
    ensures Boundary([1, 1], 0, first) == first
    ensures Boundary([1, 1], 1, first) == first + 1
    ensures Boundary([1, 1], 2, first) == first + 2
  {
    assert [1, 1][..0] == [] && [1, 1][..1] == [1] && [1, 1][..2] == [1, 1];
    assert [1, 1][..1] == [1];
  }

  lemma BetweenOfTwo(inv: seq<nat>, lo: int, hi: int)
    requires |inv| == 2
    ensures Between(inv, lo, hi) == (if lo <= inv[0] < hi then 1 else 0) + (if lo <= inv[1] < hi then 1 else 0)
  {
    var one := inv[..1];
    assert one[..0] == [] && one[0] == inv[0];
    assert Between(one, lo, hi) == (if lo <= inv[0] < hi then 1 else 0);
  }

  // -------------------------------------------------- optimize_mopp

  /** How `optimize_mopp` ended. */
  datatype MoppOutcome =
    | Raised(error: Raised)   // an exception escaped
    | Done                    // the shape was rewritten

  /** Re-pointing the corners of every collision triangle through `v_map`. */
  function RemapHavokTriangles(vMap: seq<nat>, tris: seq<HavokTriangle>): (r: Result<seq<HavokTriangle>, Raised>)
    ensures r.Ok? <==> forall k :: 0 <= k < |tris| ==> CornersIn(tris[k].triangle, |vMap|)
    ensures r.Ok? ==> |r.value| == |tris| && forall k :: 0 <= k < |tris| ==>
      r.value[k] == tris[k].(triangle := RemapCorners(vMap, tris[k].triangle))
  {
    if forall k :: 0 <= k < |tris| ==> CornersIn(tris[k].triangle, |vMap|)
    then Ok(seq(|tris|, k requires 0 <= k < |tris| => tris[k].(triangle := RemapCorners(vMap, tris[k].triangle))))
    else Err(IndexError)
  }

  /** The corner loop: IndexError at the first corner outside `v_map`. */
  method RemapCollisionTriangles(vMap: seq<nat>, src: seq<HavokTriangle>) returns (r: Result<seq<HavokTriangle>, Raised>)
    ensures r == RemapHavokTriangles(vMap, src)
  {
    var tris := src;
    var k := 0;
    while k < |tris|
      invariant 0 <= k <= |tris| == |src|
      invariant forall j :: 0 <= j < k ==> CornersIn(src[j].triangle, |vMap|)
      invariant forall j :: 0 <= j < k ==> tris[j] == src[j].(triangle := RemapCorners(vMap, src[j].triangle))
      invariant forall j :: k <= j < |tris| ==> tris[j] == src[j]
    {
      if !CornersIn(tris[k].triangle, |vMap|) {
        return Err(IndexError);
      }
      tris := tris[k := tris[k].(triangle := RemapCorners(vMap, tris[k].triangle))];
      k := k + 1;
    }
    assert tris == seq(|src|, j requires 0 <= j < |src| => src[j].(triangle := RemapCorners(vMap, src[j].triangle)));
    return Ok(tris);
  }

  /** The hash of every triangle. */
  function Hashes(tris: seq<HavokTriangle>, triHash: HavokTriangle -> int): (r: seq<int>)
    ensures |r| == |tris| && forall k :: 0 <= k < |tris| ==> r[k] == triHash(tris[k])
  {
    seq(|tris|, k requires 0 <= k < |tris| => triHash(tris[k]))
  }

  /** `optimize_mopp` on `shape`: `vertexHashes` are the vertex hashes and
      `triHash` the triangle hash of the shape's hash generators. The
      vertices are compacted; a result of exactly 8 vertices raises
      AttributeError (the box-shape checker it calls does not exist);
      otherwise the corners are re-pointed, duplicate triangles removed
      and the sub-shape counts recomputed by the scan as the program writes
      it, whose running boundary starts at -1. */
  method OptimizeMopp(shape: PackedShape, vertexHashes: seq<int>, triHash: HavokTriangle -> int)
    returns (outcome: MoppOutcome)
    requires shape.data.Valid() && |vertexHashes| == shape.data.numVertices
    modifies shape, shape.data
    ensures shape.data == old(shape.data) && shape.data.Valid()
    ensures shape.data.numVertices == |VMapInverse(vertexHashes)|
    ensures forall k :: 0 <= k < |VMapInverse(vertexHashes)| ==> VMapInverse(vertexHashes)[k] < |vertexHashes|
    ensures shape.data.vertices == Compact(old(shape.data.vertices), VMapInverse(vertexHashes))
    ensures outcome == Raised(AttributeError) <==> |VMapInverse(vertexHashes)| == 8
    ensures outcome == Raised(IndexError) <==>
      |VMapInverse(vertexHashes)| != 8 && RemapHavokTriangles(VMap(vertexHashes), old(shape.data.triangles)).Err?
    ensures outcome.Raised? ==> outcome.error != RuntimeError
    ensures outcome.Raised? ==>
      shape.subShapeVertices == old(shape.subShapeVertices) && shape.data.numTriangles == old(shape.data.numTriangles)
    ensures outcome == Done ==>
      var tris := RemapHavokTriangles(VMap(vertexHashes), old(shape.data.triangles)).value;
      var tInv := VMapInverse(Hashes(tris, triHash));
      Indexes(tInv, tris) &&
      shape.data.triangles == Compact(tris, tInv) &&
      shape.data.numTriangles == |tInv|
    ensures outcome == Done && |old(shape.subShapeVertices)| == 1 ==>
      shape.subShapeVertices == [|VMapInverse(vertexHashes)|]
    ensures outcome == Done && |old(shape.subShapeVertices)| != 1 ==>
      shape.subShapeVertices == SubShapeCounts(VMapInverse(vertexHashes), old(shape.subShapeVertices), -1)
  {
    var data := shape.data;
    VMapInverseIncreasing(vertexHashes);
    var vMap, vInv := ComputeUniqueMap(vertexHashes);
    var newVertices := CompactCopy(data.vertices, vInv, ZERO);
    data.numVertices, data.vertices := |vInv|, newVertices;
    if data.numVertices == 8 {
      return Raised(AttributeError);
    }
    var remapped := RemapCollisionTriangles(vMap, data.triangles);
    if remapped.Err? {
      return Raised(remapped.error);
    }
    var tris := remapped.value;
    var hashes := Hashes(tris, triHash);
    var tMap, tInv := ComputeUniqueMap(hashes);
    VMapInverseIncreasing(hashes);
    var newTriangles := CompactCopy(tris, tInv, HavokTriangle(Triangle(0, 0, 0), ZERO));
    data.numTriangles, data.triangles := |tInv|, newTriangles;
    if |shape.subShapeVertices| == 1 {
      shape.subShapeVertices := [data.numVertices];
    } else {
      shape.subShapeVertices := FixSubShapeCounts(vInv, shape.subShapeVertices, -1);
    }
    outcome := Done;
  }

  /** Triangles whose hash determines them (corners and normal) all survive
      the duplicate removal: each is found again at its new index. */
  lemma TrianglesLossless(tris: seq<HavokTriangle>, triHash: HavokTriangle -> int)
    requires forall a, b :: triHash(a) == triHash(b) ==> a == b
    ensures Indexes(VMapInverse(Hashes(tris, triHash)), tris)
    ensures forall i :: 0 <= i < |tris| ==>
      var tInv := VMapInverse(Hashes(tris, triHash));
      VMap(Hashes(tris, triHash))[i] < |tInv| && Compact(tris, tInv)[VMap(Hashes(tris, triHash))[i]] == tris[i]
  {
    var h := Hashes(tris, triHash);
    assert DeterminedBy(h, tris) by {
      forall i, j | 0 <= i < |h| && 0 <= j < |h| && h[i] == h[j]
        ensures tris[i] == tris[j]
      {
        assert triHash(tris[i]) == triHash(tris[j]);
      }
    }
    CompactLossless(h, tris);
  }

  // -------------------------------------------------- the spell

  /** What `branchentry` did with one block. */
  datatype CollisionOutcome =
    | NotPackedMopp               // not a packed MOPP shape: recursion goes on
    | SeenBefore      // listed among the optimized shapes
    | RemovedShape     // fewer than 3 vertices: replaced by nothing
    | MoppFailed(error: Raised) // `optimize_mopp` raised
    | MoppOptimized             // rewritten and recorded

  class OptimizeCollisionSpell {
    var changed: bool
    var optimized: seq<nat>

    constructor()
      ensures !changed && optimized == []
    {
      changed, optimized := false, [];
    }

    /** `branchentry` on block `branch`; `isPackedMopp` tells whether it is
        a bhkMoppBvTreeShape over packed tri-strips data. A shape with at
        least 3 vertices goes through OptimizeMopp, whose outcome and new
        state the contract passes on. */
    method BranchEntry(branch: nat, isPackedMopp: bool, shape: PackedShape,
                       vertexHashes: seq<int>, triHash: HavokTriangle -> int)
      returns (recurse: bool, outcome: CollisionOutcome)
      requires shape.data.Valid() && |vertexHashes| == shape.data.numVertices
      modifies this, shape, shape.data
      ensures forall k :: 0 <= k < |VMapInverse(vertexHashes)| ==> VMapInverse(vertexHashes)[k] < |vertexHashes|
      ensures recurse <==> outcome == NotPackedMopp
      ensures outcome == SeenBefore <==> branch in old(optimized)
      ensures outcome == NotPackedMopp <==> branch !in old(optimized) && !isPackedMopp
      ensures outcome == RemovedShape <==>
        branch !in old(optimized) && isPackedMopp && old(shape.data.numVertices) < 3
      ensures outcome == MoppFailed(AttributeError) <==>
        branch !in old(optimized) && isPackedMopp && old(shape.data.numVertices) >= 3 &&
        |VMapInverse(vertexHashes)| == 8
      ensures outcome == MoppFailed(IndexError) <==>
        branch !in old(optimized) && isPackedMopp && old(shape.data.numVertices) >= 3 &&
        |VMapInverse(vertexHashes)| != 8 && RemapHavokTriangles(VMap(vertexHashes), old(shape.data.triangles)).Err?
      ensures outcome == MoppOptimized <==>
        branch !in old(optimized) && isPackedMopp && old(shape.data.numVertices) >= 3 &&
        |VMapInverse(vertexHashes)| != 8 && RemapHavokTriangles(VMap(vertexHashes), old(shape.data.triangles)).Ok?
      ensures outcome.MoppFailed? ==> outcome.error != RuntimeError
      ensures outcome == MoppOptimized ==> optimized == old(optimized) + [branch] && changed
      ensures outcome != MoppOptimized ==> optimized == old(optimized)
      ensures outcome == RemovedShape ==> changed
      ensures outcome.MoppFailed? || outcome == NotPackedMopp || outcome == SeenBefore ==> changed == old(changed)
      ensures outcome == RemovedShape || outcome == NotPackedMopp || outcome == SeenBefore ==>
        shape.data.vertices == old(shape.data.vertices) && shape.data.triangles == old(shape.data.triangles)
      ensures outcome.MoppFailed? || outcome == MoppOptimized ==>
        shape.data == old(shape.data) && shape.data.Valid() &&
        shape.data.numVertices == |VMapInverse(vertexHashes)| &&
        shape.data.vertices == Compact(old(shape.data.vertices), VMapInverse(vertexHashes))
      ensures outcome.MoppFailed? ==>
        shape.subShapeVertices == old(shape.subShapeVertices) && shape.data.numTriangles == old(shape.data.numTriangles)
      ensures outcome == MoppOptimized ==>
        var tris := RemapHavokTriangles(VMap(vertexHashes), old(shape.data.triangles)).value;
        var tInv := VMapInverse(Hashes(tris, triHash));
        Indexes(tInv, tris) &&
        shape.data.triangles == Compact(tris, tInv) &&
        shape.data.numTriangles == |tInv|
      ensures outcome == MoppOptimized && |old(shape.subShapeVertices)| == 1 ==>
        shape.subShapeVertices == [|VMapInverse(vertexHashes)|]
      ensures outcome == MoppOptimized && |old(shape.subShapeVertices)| != 1 ==>
        shape.subShapeVertices == SubShapeCounts(VMapInverse(vertexHashes), old(shape.subShapeVertices), -1)
    {
      VMapInverseIncreasing(vertexHashes);
      if branch in optimized {
        return false, SeenBefore;
      }
      if !isPackedMopp {
        return true, NotPackedMopp;
      }
      if shape.data.numVertices < 3 {
        changed := true;
        return false, RemovedShape;
      }
      var done := OptimizeMopp(shape, vertexHashes, triHash);
      if done.Raised? {
        return false, MoppFailed(done.error);
      }
      optimized := optimized + [branch];
      changed := true;
      return false, MoppOptimized;
    }
  }
}
