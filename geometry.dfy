/** The index logic of the geometry optimizer (`SpellOptimizeGeometry` in
    pyffi/spells/nif/optimize.py): once duplicate vertices are known, every
    per-vertex array is compacted through `v_map_inverse`, triangle and
    strip corners are re-pointed through `v_map`, skin weights are
    regrouped per bone, morph vectors are compacted, and the strip length
    statistics decide between triangles and strips. Coordinates are only
    copied, never computed, so they are opaque reals here. */
module Geometry {
  import opened Common
  import opened UniqueMap

  datatype Vector3 = Vector3(x: real, y: real, z: real)
  datatype TexCoord = TexCoord(u: real, v: real)
  datatype Color4 = Color4(r: real, g: real, b: real, a: real)
  datatype Triangle = Triangle(v1: nat, v2: nat, v3: nat)

  // ------------------------------------------------------------ compaction

  /** Every entry of `inv` is a position of `src`. */
  predicate Indexes<T>(inv: seq<nat>, src: seq<T>)
  {
    forall k :: 0 <= k < |inv| ==> inv[k] < |src|
  }

  /** The array rebuilt through `v_map_inverse`: new entry i is a copy of
      old entry inv[i]. */
  function Compact<T>(src: seq<T>, inv: seq<nat>): seq<T>
    requires Indexes(inv, src)
  {
    seq(|inv|, i requires 0 <= i < |inv| => src[inv[i]])
  }

  /** `update_size()` on an array: it keeps the leading entries and pads
      with fresh default entries up to the new length. */
  function Resize<T>(a: seq<T>, n: nat, fill: T): (r: seq<T>)
    ensures |r| == n
    ensures forall k :: 0 <= k < n && k < |a| ==> r[k] == a[k]
  {
    if n <= |a| then a[..n] else a + seq(n - |a|, _ => fill)
  }

  /** Values that agree wherever their hashes agree: a vertex hash is
      computed from the vertex, so vertices with one hash are
      interchangeable. */
  ghost predicate DeterminedBy<T>(h: seq<int>, vals: seq<T>)
  {
    |vals| == |h| &&
    forall i, j :: 0 <= i < |h| && 0 <= j < |h| && h[i] == h[j] ==> vals[i] == vals[j]
  }

  lemma InverseIndexes<T>(h: seq<int>, vals: seq<T>)
    requires |vals| == |h|
    ensures Indexes(VMapInverse(h), vals)
  {
    VMapInverseIncreasing(h);
  }

  /** The copy loop of the optimizer: the array is resized to the new
      vertex count, then entry i is overwritten with old entry inv[i]. */
  method CompactCopy<T>(src: seq<T>, inv: seq<nat>, fill: T) returns (r: seq<T>)
    requires Indexes(inv, src)
    ensures r == Compact(src, inv)
  {
    r := Resize(src, |inv|, fill);
    var i := 0;
    while i < |inv|
      invariant 0 <= i <= |inv| == |r|
      invariant forall j :: 0 <= j < i ==> r[j] == src[inv[j]]
    {
      r := r[i := src[inv[i]]];
      i := i + 1;
    }
  }

  /** Compaction of every UV set. */
  function CompactEach<T>(sets: seq<seq<T>>, inv: seq<nat>): (r: seq<seq<T>>)
    requires forall j :: 0 <= j < |sets| ==> Indexes(inv, sets[j])
    ensures |r| == |sets|
    ensures forall j :: 0 <= j < |r| ==> |r[j]| == |inv|
  {
    seq(|sets|, j requires 0 <= j < |sets| => Compact(sets[j], inv))
  }

  /** The nested copy loop over the UV sets. */
  method CompactEachCopy<T>(sets: seq<seq<T>>, inv: seq<nat>, fill: T) returns (r: seq<seq<T>>)
    requires forall j :: 0 <= j < |sets| ==> Indexes(inv, sets[j])
    ensures r == CompactEach(sets, inv)
  {
    r := sets;
    var j := 0;
    while j < |r|
      invariant 0 <= j <= |r| == |sets|
      invariant forall k :: j <= k < |r| ==> r[k] == sets[k]
      invariant forall k :: 0 <= k < j ==> r[k] == Compact(sets[k], inv)
    {
      var compacted := CompactCopy(r[j], inv, fill);
      r := r[j := compacted];
      j := j + 1;
    }
  }

  /** Removing duplicates loses nothing: an old vertex looked up through
      its new index in the compacted array gives back the same value. */
  lemma CompactLossless<T>(h: seq<int>, vals: seq<T>)
    requires DeterminedBy(h, vals)
    ensures Indexes(VMapInverse(h), vals)
    ensures forall i :: 0 <= i < |h| ==>
      VMap(h)[i] < |Compact(vals, VMapInverse(h))| && Compact(vals, VMapInverse(h))[VMap(h)[i]] == vals[i]
  {
    InverseIndexes(h, vals);
    forall i | 0 <= i < |h|
      ensures VMap(h)[i] < |Compact(vals, VMapInverse(h))| && Compact(vals, VMapInverse(h))[VMap(h)[i]] == vals[i]
    {
      VMapRepresentative(h, i);
    }
  }

  /** Two different representatives have different hashes. */
  lemma RepresentativesDiffer(h: seq<int>, p: nat, q: nat)
    requires p < q < |h| && IsFirst(h, q)
    ensures h[p] != h[q]
  {
  }

  /** No duplicates remain: the hashes of the compacted vertices are
      pairwise distinct. */
  lemma CompactedDistinct(h: seq<int>)
    ensures Indexes(VMapInverse(h), h)
    ensures forall a, b :: 0 <= a < b < |Compact(h, VMapInverse(h))| ==>
      Compact(h, VMapInverse(h))[a] != Compact(h, VMapInverse(h))[b]
  {
    var inv := VMapInverse(h);
    InverseIndexes(h, h);
    FirstsExactly(h, |h|);
    forall a, b | 0 <= a < b < |inv|
      ensures h[inv[a]] != h[inv[b]]
    {
      RepresentativesDiffer(h, inv[a], inv[b]);
    }
  }

  /** Optimizing already optimized geometry changes nothing: on the
      compacted hashes the unique map is the identity. */
  lemma ReoptimizeIsIdentity(h: seq<int>)
    ensures Indexes(VMapInverse(h), h)
    ensures var c := Compact(h, VMapInverse(h));
      VMapInverse(c) == seq(|c|, k requires 0 <= k < |c| => k) &&
      forall i :: 0 <= i < |c| ==> VMap(c)[i] == i
  {
    CompactedDistinct(h);
    DistinctIsIdentity(Compact(h, VMapInverse(h)));
  }

  // ---------------------------------------------------- triangles and strips

  /** All three corners are old vertex indices, so `v_map[...]` does not
      raise. */
  predicate CornersIn(t: Triangle, n: nat)
  {
    t.v1 < n && t.v2 < n && t.v3 < n
  }

  /** Re-pointing the corners of one triangle through `v_map`. */
  function RemapCorners(vMap: seq<nat>, t: Triangle): Triangle
    requires CornersIn(t, |vMap|)
  {
    Triangle(vMap[t.v1], vMap[t.v2], vMap[t.v3])
  }

  /** The triangle loop of a NiTriShapeData: every corner index t becomes
      `v_map[t]`; a corner outside `v_map` raises IndexError, which is not
      caught. */
  function RemapTriangles(vMap: seq<nat>, tris: seq<Triangle>): Result<seq<Triangle>, Raised>
  {
    if forall k :: 0 <= k < |tris| ==> CornersIn(tris[k], |vMap|) then
      Ok(seq(|tris|, k requires 0 <= k < |tris| => RemapCorners(vMap, tris[k])))
    else
      Err(IndexError)
  }

  /** The vertex a corner index names, in an array of vertex values. */
  function Corner<T>(vals: seq<T>, t: Triangle, c: nat): T
    requires c < 3 && CornersIn(t, |vals|)
  {
    if c == 0 then vals[t.v1] else if c == 1 then vals[t.v2] else vals[t.v3]
  }

  /** Re-pointing triangles succeeds exactly when every corner is an old
      vertex; then every new corner is a new vertex, and each corner names,
      in the compacted array, the same vertex value it named before: the
      mesh is unchanged. */
  lemma RemapTrianglesPreservesMesh<T>(h: seq<int>, vals: seq<T>, tris: seq<Triangle>)
    requires DeterminedBy(h, vals)
    ensures RemapTriangles(VMap(h), tris).Ok? <==> forall k :: 0 <= k < |tris| ==> CornersIn(tris[k], |h|)
    ensures RemapTriangles(VMap(h), tris).Ok? ==>
      var nt := RemapTriangles(VMap(h), tris).value;
      Indexes(VMapInverse(h), vals) && |nt| == |tris| &&
      forall k :: 0 <= k < |tris| ==>
        CornersIn(nt[k], |VMapInverse(h)|) &&
        forall c :: 0 <= c < 3 ==>
          Corner(Compact(vals, VMapInverse(h)), nt[k], c) == Corner(vals, tris[k], c)
  {
    CompactLossless(h, vals);
  }

  /** The strip loop of a NiTriStripsData as written: positions are
      rewritten left to right; an index outside `v_map` at position i > 0
      becomes the already rewritten index at i - 1, at position 0 it becomes
      the index at position 1 as it still stands, not yet rewritten; a bad
      index in a strip of length one raises IndexError inside the handler.
      Positions before `i` are done, the rest are still old indices. */
  function StripAsWritten(vMap: seq<nat>, s: seq<nat>, i: nat): Result<seq<nat>, Raised>
    requires i <= |s|
    decreases |s| - i
  {
    if i == |s| then Ok(s)
    else if s[i] < |vMap| then StripAsWritten(vMap, s[i := vMap[s[i]]], i + 1)
    else if i > 0 then StripAsWritten(vMap, s[i := s[i - 1]], i + 1)
    else if i + 1 < |s| then StripAsWritten(vMap, s[i := s[i + 1]], i + 1)
    else Err(IndexError)
  }

  /** The first position at or after `i` holding an old vertex index, or
      `|s|` if there is none. */
  function FirstValid(vMap: seq<nat>, s: seq<nat>, i: nat): (p: nat)
    requires i <= |s|
    ensures i <= p <= |s|
    ensures p < |s| ==> s[p] < |vMap|
    ensures forall k :: i <= k < p ==> s[k] >= |vMap|
    decreases |s| - i
  {
    if i == |s| || s[i] < |vMap| then i else FirstValid(vMap, s, i + 1)
  }

  /** Repaired positions from `i` on, where `prev` is the index chosen at
      position i - 1: a good index is re-pointed, a bad one repeats the
      previous choice. */
  function RepairFrom(vMap: seq<nat>, s: seq<nat>, i: nat, prev: nat): (r: seq<nat>)
    requires i <= |s|
    ensures |r| == |s| - i
    decreases |s| - i
  {
    if i == |s| then []
    else
      var v := if s[i] < |vMap| then vMap[s[i]] else prev;
      [v] + RepairFrom(vMap, s, i + 1, v)
  }

  /** The strip repair as evidently intended: a bad index is replaced by a
      valid new index, the one chosen for the previous position or, in a
      leading run of bad indices, the re-pointed first good index. A strip
      with no good index at all cannot be repaired. */
  function StripRepaired(vMap: seq<nat>, s: seq<nat>): Result<seq<nat>, Raised>
  {
    var p := FirstValid(vMap, s, 0);
    if p < |s| then Ok(RepairFrom(vMap, s, 0, vMap[s[p]]))
    else if s == [] then Ok([])
    else Err(IndexError)
  }

  lemma {:induction false} RepairFromFacts(vMap: seq<nat>, s: seq<nat>, i: nat, prev: nat, n: nat)
    requires i <= |s| && prev < n
    requires forall k :: 0 <= k < |vMap| ==> vMap[k] < n
    ensures forall k :: 0 <= k < |s| - i ==> RepairFrom(vMap, s, i, prev)[k] < n
    ensures forall k :: i <= k < |s| && s[k] < |vMap| ==> RepairFrom(vMap, s, i, prev)[k - i] == vMap[s[k]]
    decreases |s| - i
  {
    if i < |s| {
      var v := if s[i] < |vMap| then vMap[s[i]] else prev;
      RepairFromFacts(vMap, s, i + 1, v, n);
    }
  }

  /** The repaired strip keeps its length, re-points every good index and
      holds only new vertex indices; it fails exactly when the strip is
      non-empty and has no good index. */
  lemma StripRepairedIsValid(vMap: seq<nat>, s: seq<nat>, n: nat)
    requires forall k :: 0 <= k < |vMap| ==> vMap[k] < n
    ensures StripRepaired(vMap, s).Err? <==> s != [] && forall k :: 0 <= k < |s| ==> s[k] >= |vMap|
    ensures StripRepaired(vMap, s).Ok? ==>
      var r := StripRepaired(vMap, s).value;
      |r| == |s| &&
      (forall k :: 0 <= k < |s| ==> r[k] < n) &&
      (forall k :: 0 <= k < |s| && s[k] < |vMap| ==> r[k] == vMap[s[k]])
  {
    var p := FirstValid(vMap, s, 0);
    if p < |s| {
      RepairFromFacts(vMap, s, 0, vMap[s[p]], n);
    }
  }

  /** `RepairFrom` reads only the positions it has not reached. */
  lemma {:induction false} RepairFromReadsAhead(vMap: seq<nat>, s: seq<nat>, t: seq<nat>, i: nat, prev: nat)
    requires i <= |s| == |t| && s[i..] == t[i..]
    ensures RepairFrom(vMap, s, i, prev) == RepairFrom(vMap, t, i, prev)
    decreases |s| - i
  {
    if i < |s| {
      assert s[i] == s[i..][0] && t[i] == t[i..][0];
      assert s[i + 1..] == s[i..][1..] && t[i + 1..] == t[i..][1..];
      var v := if s[i] < |vMap| then vMap[s[i]] else prev;
      RepairFromReadsAhead(vMap, s, t, i + 1, v);
    }
  }

  /** Past position 0 the code as written does what was intended: the done
      prefix followed by the repair of the rest. */
  lemma {:induction false} StripAsWrittenTail(vMap: seq<nat>, s: seq<nat>, i: nat)
    requires 0 < i <= |s|
    ensures StripAsWritten(vMap, s, i) == Ok(s[..i] + RepairFrom(vMap, s, i, s[i - 1]))
    decreases |s| - i
  {
    if i == |s| {
      assert s[..i] + RepairFrom(vMap, s, i, s[i - 1]) == s;
    } else {
      var v := if s[i] < |vMap| then vMap[s[i]] else s[i - 1];
      var s' := s[i := v];
      assert StripAsWritten(vMap, s, i) == StripAsWritten(vMap, s', i + 1);
      StripAsWrittenTail(vMap, s', i + 1);
      assert s'[i + 1..] == s[i + 1..];
      RepairFromReadsAhead(vMap, s', s, i + 1, v);
      assert s'[..i + 1] == s[..i] + [v];
      assert RepairFrom(vMap, s, i, s[i - 1]) == [v] + RepairFrom(vMap, s, i + 1, v);
      assert s[..i] + [v] + RepairFrom(vMap, s, i + 1, v) == s[..i] + ([v] + RepairFrom(vMap, s, i + 1, v));
    }
  }

  /** The two agree whenever the strip does not start with a bad index. */
  lemma StripAsWrittenAgrees(vMap: seq<nat>, s: seq<nat>)
    requires s == [] || s[0] < |vMap|
    ensures StripAsWritten(vMap, s, 0) == StripRepaired(vMap, s)
  {
    if s != [] {
      var s' := s[0 := vMap[s[0]]];
      StripAsWrittenTail(vMap, s', 1);
      assert s'[1..] == s[1..];
      RepairFromReadsAhead(vMap, s', s, 1, vMap[s[0]]);
      assert s'[..1] == [vMap[s[0]]];
    }
  }

  /** The code as written leaves an old index in the strip: with hashes
      a, a, b the new vertices are 0 and 1, yet the strip 7, 2, 1 comes out
      as 2, 1, 0, and 2 names no new vertex. The intended repair gives
      1, 1, 0. */
  lemma StripRepairKeepsOldIndex(a: int, b: int)
    requires a != b
    ensures VMap([a, a, b]) == [0, 0, 1] && |VMapInverse([a, a, b])| == 2
    ensures StripAsWritten([0, 0, 1], [7, 2, 1], 0) == Ok([2, 1, 0])
    ensures StripRepaired([0, 0, 1], [7, 2, 1]) == Ok([1, 1, 0])
  {
    var h := [a, a, b];
    StepNew(h, 0);
    assert Firsts(h, 1) == [0];
    StepSeen(h, 1, 0);
    StepNew(h, 2);
    assert Firsts(h, 3) == [0, 2];
    assert [7, 2, 1][0 := 2] == [2, 2, 1];
    assert [2, 2, 1][1 := 1] == [2, 1, 1];
    assert [2, 1, 1][2 := 0] == [2, 1, 0];
    var m, t := [0, 0, 1], [7, 2, 1];
    assert FirstValid(m, t, 0) == 1;
    assert RepairFrom(m, t, 3, 0) == [];
    assert RepairFrom(m, t, 2, 1) == [0];
    assert RepairFrom(m, t, 1, 1) == [1, 0];
    assert RepairFrom(m, t, 0, 1) == [1, 1, 0];
  }

  // ------------------------------------------------------- strip statistics

  /** `STRIPLENCUTOFF`: below this average strip length the geometry is
      turned back into plain triangles. */
  const STRIP_LEN_CUTOFF: nat := 10

  /** Above this many triangles the geometry is not re-stripped at all. */
  const MAX_RESTRIP_TRIANGLES: nat := 32000

  function Sum(ls: seq<nat>): nat
  {
    if ls == [] then 0 else Sum(ls[..|ls| - 1]) + ls[|ls| - 1]
  }

  function SumSquares(ls: seq<nat>): nat
  {
    if ls == [] then 0 else SumSquares(ls[..|ls| - 1]) + ls[|ls| - 1] * ls[|ls| - 1]
  }

  /** `max(1, n)`, which keeps the average defined for zero strips. */
  function AtLeastOne(n: nat): (r: nat)
    ensures r >= 1
  {
    if n < 1 then 1 else n
  }

  /** What happens to the strips once the corners are re-pointed. */
  datatype StripPlan =
    | TooManyTriangles   // more than 32000 triangles: no re-stripping
    | Triangulate        // average strip length below the cutoff
    | Stitch             // strips are kept and stitched into one
    | KeepStrips         // strips are kept as they are (stitching off)

  /** The decision on the strip lengths produced by the stripifier: the
      average weighed towards long strips, sum(len * len) / max(1,
      sum(len)), is compared with the cutoff without dividing. */
  function StripPlanFor(numTriangles: nat, lengths: seq<nat>, stitch: bool): StripPlan
  {
    if numTriangles > MAX_RESTRIP_TRIANGLES then TooManyTriangles
    else if SumSquares(lengths) < STRIP_LEN_CUTOFF * AtLeastOne(Sum(lengths)) then Triangulate
    else if stitch then Stitch
    else KeepStrips
  }

  /** The plan triangulates exactly when the weighed average, computed in
      exact arithmetic, is below the cutoff. */
  lemma StripPlanIsAverageRule(numTriangles: nat, lengths: seq<nat>, stitch: bool)
    requires numTriangles <= MAX_RESTRIP_TRIANGLES
    ensures StripPlanFor(numTriangles, lengths, stitch) == Triangulate <==>
      (SumSquares(lengths) as real) / (AtLeastOne(Sum(lengths)) as real) < STRIP_LEN_CUTOFF as real
    ensures StripPlanFor(numTriangles, lengths, stitch) != Triangulate ==>
      StripPlanFor(numTriangles, lengths, stitch) == (if stitch then Stitch else KeepStrips)
  {
    var a, b := SumSquares(lengths) as real, AtLeastOne(Sum(lengths)) as real;
    DivBelow(a, b, STRIP_LEN_CUTOFF as real);
    assert (STRIP_LEN_CUTOFF * AtLeastOne(Sum(lengths))) as real == STRIP_LEN_CUTOFF as real * b;
  }

  lemma DivBelow(a: real, b: real, c: real)
    requires b > 0.0
    ensures a / b < c <==> a < c * b
  {
    var q := a / b;
    assert a == q * b;
    if q < c {
      assert q * b < c * b;
    } else {
      assert q * b >= c * b;
    }
  }

  lemma MulAtLeast(x: nat, y: nat, z: nat)
    requires x >= y
    ensures x * z >= y * z
  {
    assert x * z - y * z == (x - y) * z;
  }

  /** One more strip of length `l >= c` keeps `squares >= c * sum`. */
  lemma LongStep(sum: nat, squares: nat, l: nat, c: nat)
    requires squares >= c * sum && l >= c
    ensures squares + l * l >= c * (sum + l)
  {
    MulAtLeast(l, c, l);
    assert c * (sum + l) == c * sum + c * l;
  }

  /** One more strip of length `l < c` keeps `squares <= c * sum`, and
      strictly once the sum is positive. */
  lemma ShortStep(sum: nat, squares: nat, l: nat, c: nat)
    requires squares <= c * sum && l < c
    requires sum > 0 ==> squares < c * sum
    ensures squares + l * l <= c * (sum + l)
    ensures sum + l > 0 ==> squares + l * l < c * (sum + l)
  {
    MulAtLeast(c, l + 1, l);
    assert (l + 1) * l == l * l + l;
    assert c * (sum + l) == c * sum + c * l;
  }

  lemma {:induction false} SumsOfLongStrips(lengths: seq<nat>, c: nat)
    requires forall k :: 0 <= k < |lengths| ==> lengths[k] >= c
    ensures SumSquares(lengths) >= c * Sum(lengths)
  {
    if lengths != [] {
      var init, l := lengths[..|lengths| - 1], lengths[|lengths| - 1];
      SumsOfLongStrips(init, c);
      LongStep(Sum(init), SumSquares(init), l, c);
    }
  }

  lemma {:induction false} SumsOfShortStrips(lengths: seq<nat>, c: nat)
    requires forall k :: 0 <= k < |lengths| ==> lengths[k] < c
    ensures SumSquares(lengths) <= c * Sum(lengths)
    ensures Sum(lengths) > 0 ==> SumSquares(lengths) < c * Sum(lengths)
  {
    if lengths != [] {
      var init, l := lengths[..|lengths| - 1], lengths[|lengths| - 1];
      SumsOfShortStrips(init, c);
      ShortStep(Sum(init), SumSquares(init), l, c);
    }
  }

  /** Strips that are all at least as long as the cutoff are kept. */
  lemma LongStripsAreKept(numTriangles: nat, lengths: seq<nat>, stitch: bool)
    requires numTriangles <= MAX_RESTRIP_TRIANGLES && lengths != []
    requires forall k :: 0 <= k < |lengths| ==> lengths[k] >= STRIP_LEN_CUTOFF
    ensures StripPlanFor(numTriangles, lengths, stitch) == (if stitch then Stitch else KeepStrips)
  {
    SumsOfLongStrips(lengths, STRIP_LEN_CUTOFF);
    assert Sum(lengths) >= lengths[|lengths| - 1] >= STRIP_LEN_CUTOFF;
  }

  /** Strips that are all shorter than the cutoff, and no strips at all,
      are triangulated. */
  lemma ShortStripsAreTriangulated(numTriangles: nat, lengths: seq<nat>, stitch: bool)
    requires numTriangles <= MAX_RESTRIP_TRIANGLES
    requires forall k :: 0 <= k < |lengths| ==> lengths[k] < STRIP_LEN_CUTOFF
    ensures StripPlanFor(numTriangles, lengths, stitch) == Triangulate
  {
    SumsOfShortStrips(lengths, STRIP_LEN_CUTOFF);
  }

  // ------------------------------------------------------------------ skin

  /** One entry of `get_vertex_weights()`: a bone number and a weight. */
  datatype BoneLink = BoneLink(bone: nat, weight: real)

  /** One entry of a bone's `vertex_weights`. */
  datatype SkinWeight = SkinWeight(index: nat, weight: real)

  /** The weights vertex `i` contributes to `bone`, over its first `m`
      links. */
  function LinksTo(links: seq<BoneLink>, m: nat, bone: nat, i: nat): seq<SkinWeight>
    requires m <= |links|
  {
    if m == 0 then []
    else
      LinksTo(links, m - 1, bone, i)
        + (if links[m - 1].bone == bone then [SkinWeight(i, links[m - 1].weight)] else [])
  }

  /** The weight list rebuilt for `bone` over the first `n` vertices:
      (i, weight) for every link of vertex i to the bone, in increasing i. */
  function BoneWeights(ws: seq<seq<BoneLink>>, n: nat, bone: nat): seq<SkinWeight>
    requires n <= |ws|
  {
    if n == 0 then [] else BoneWeights(ws, n - 1, bone) + LinksTo(ws[n - 1], |ws[n - 1]|, bone, n - 1)
  }

  lemma {:induction false} LinksToMembers(links: seq<BoneLink>, m: nat, bone: nat, i: nat)
    requires m <= |links|
    ensures forall e :: e in LinksTo(links, m, bone, i) <==>
      e.index == i && BoneLink(bone, e.weight) in links[..m]
  {
    if m > 0 {
      LinksToMembers(links, m - 1, bone, i);
      assert links[..m] == links[..m - 1] + [links[m - 1]];
    }
  }

  /** An entry (i, w) is in the list rebuilt for `bone` exactly when vertex
      i links to the bone with weight w; the entries come in increasing
      vertex order. */
  lemma {:induction false} BoneWeightsMembers(ws: seq<seq<BoneLink>>, n: nat, bone: nat)
    requires n <= |ws|
    ensures forall e :: e in BoneWeights(ws, n, bone) <==>
      e.index < n && BoneLink(bone, e.weight) in ws[e.index]
    ensures forall a, b :: 0 <= a < b < |BoneWeights(ws, n, bone)| ==>
      BoneWeights(ws, n, bone)[a].index <= BoneWeights(ws, n, bone)[b].index
  {
    if n > 0 {
      BoneWeightsMembers(ws, n - 1, bone);
      var links := ws[n - 1];
      LinksToMembers(links, |links|, bone, n - 1);
      assert links[..|links|] == links;
      var pre: seq<SkinWeight>, add: seq<SkinWeight> := BoneWeights(ws, n - 1, bone), LinksTo(links, |links|, bone, n - 1);
      assert BoneWeights(ws, n, bone) == pre + add;
      forall a, b | 0 <= a < b < |pre + add|
        ensures (pre + add)[a].index <= (pre + add)[b].index
      {
        if b >= |pre| {
          assert (pre + add)[b] in add;
          if a < |pre| {
            assert (pre + add)[a] in pre;
          } else {
            assert (pre + add)[a] in add;
          }
        }
      }
    }
  }

  /** The skin block: `bone_list[b].num_vertices` and
      `bone_list[b].vertex_weights` per bone b. */
  class SkinData {
    var boneNumVertices: seq<nat>
    var boneVertexWeights: seq<seq<SkinWeight>>

    predicate Valid()
      reads this
    {
      |boneNumVertices| == |boneVertexWeights|
    }

    /** The skin update: the weights of the new vertices are those of their
        representatives, and every bone's list is rebuilt from them by a
        scan over the new vertices and their links. */
    method RegroupWeights(oldWeights: seq<seq<BoneLink>>, inv: seq<nat>)
      requires Valid() && Indexes(inv, oldWeights)
      modifies this
      ensures Valid() && |boneVertexWeights| == old(|boneVertexWeights|)
      ensures forall b :: 0 <= b < |boneVertexWeights| ==>
        boneVertexWeights[b] == BoneWeights(Compact(oldWeights, inv), |inv|, b) &&
        boneNumVertices[b] == |boneVertexWeights[b]|
    {
      var newWeights: seq<seq<BoneLink>> := [];
      var i := 0;
      while i < |inv|
        invariant 0 <= i <= |inv|
        invariant newWeights == Compact(oldWeights, inv)[..i]
      {
        newWeights := newWeights + [oldWeights[inv[i]]];
        i := i + 1;
      }
      assert newWeights == Compact(oldWeights, inv);
      var bone := 0;
      while bone < |boneVertexWeights|
        invariant 0 <= bone <= |boneVertexWeights| == |boneNumVertices|
        invariant |boneVertexWeights| == old(|boneVertexWeights|)
        invariant forall b :: 0 <= b < bone ==>
          boneVertexWeights[b] == BoneWeights(newWeights, |inv|, b) &&
          boneNumVertices[b] == |boneVertexWeights[b]|
      {
        var w := CollectBoneWeights(newWeights, bone);
        boneNumVertices := boneNumVertices[bone := |w|];
        boneVertexWeights := boneVertexWeights[bone := w];
        bone := bone + 1;
      }
    }
  }

  /** The nested scan for one bone: over the vertices, and over each
      vertex's links, keep (i, weight) for the links to `bone`. */
  method CollectBoneWeights(ws: seq<seq<BoneLink>>, bone: nat) returns (w: seq<SkinWeight>)
    ensures w == BoneWeights(ws, |ws|, bone)
  {
    w := [];
    var i := 0;
    while i < |ws|
      invariant 0 <= i <= |ws|
      invariant w == BoneWeights(ws, i, bone)
    {
      var j := 0;
      var links := ws[i];
      while j < |links|
        invariant 0 <= j <= |links|
        invariant w == BoneWeights(ws, i, bone) + LinksTo(links, j, bone, i)
      {
        if links[j].bone == bone {
          w := w + [SkinWeight(i, links[j].weight)];
        }
        j := j + 1;
      }
      i := i + 1;
    }
  }

  /** After regrouping, bone b lists new vertex i with weight w exactly
      when the old vertex it represents linked to b with weight w. */
  lemma RegroupedWeightsMembers(oldWeights: seq<seq<BoneLink>>, inv: seq<nat>, bone: nat)
    requires Indexes(inv, oldWeights)
    ensures forall e :: e in BoneWeights(Compact(oldWeights, inv), |inv|, bone) <==>
      e.index < |inv| && BoneLink(bone, e.weight) in oldWeights[inv[e.index]]
  {
    BoneWeightsMembers(Compact(oldWeights, inv), |inv|, bone);
  }

  // ----------------------------------------------------------------- morphs

  /** The pairing of one morph's vectors with `v_map_inverse` stays inside
      the old vectors: every old index paired (up to the shorter of the two
      lists) names an old vector. */
  predicate MorphPairsIn(inv: seq<nat>, vectors: seq<Vector3>)
  {
    forall i :: 0 <= i < |inv| && i < |vectors| ==> inv[i] < |vectors|
  }

  /** A morph data block: `num_vertices` and the vectors of every morph. */
  class MorphData {
    var numVertices: nat
    var morphs: seq<seq<Vector3>>

    /** The morph update: each morph's vectors are overwritten pairwise
        with `v_map_inverse` (the pairing stops at the shorter of the two),
        then every morph is resized to the new vertex count, new vectors
        being zero. An old index past a morph's vectors raises IndexError,
        before the vertex count is set. */
    method CompactMorphs(inv: seq<nat>) returns (err: Option<Raised>)
      modifies this
      ensures err.None? <==> forall k :: 0 <= k < |old(morphs)| ==> MorphPairsIn(inv, old(morphs)[k])
      ensures err.Some? ==> err == Some(IndexError) && numVertices == old(numVertices)
      ensures |morphs| == old(|morphs|)
      ensures err.None? ==> numVertices == |inv| && forall k :: 0 <= k < |morphs| ==> |morphs[k]| == |inv|
      ensures err.None? ==> forall k, i :: 0 <= k < |old(morphs)| && 0 <= i < |inv| && i < |old(morphs)[k]| ==>
        morphs[k][i] == old(morphs)[k][inv[i]]
      ensures err.None? ==> forall k, i :: 0 <= k < |old(morphs)| && |old(morphs)[k]| <= i < |inv| ==>
        morphs[k][i] == ZERO
    {
      var m := 0;
      while m < |morphs|
        invariant 0 <= m <= |morphs| == old(|morphs|)
        invariant numVertices == old(numVertices)
        invariant forall k :: m <= k < |morphs| ==> morphs[k] == old(morphs)[k]
        invariant forall k :: 0 <= k < m ==> MorphPairsIn(inv, old(morphs)[k])
        invariant forall k :: 0 <= k < m ==>
          |morphs[k]| == |old(morphs)[k]| &&
          forall i :: 0 <= i < |inv| && i < |old(morphs)[k]| ==> morphs[k][i] == old(morphs)[k][inv[i]]
      {
        var oldVectors := morphs[m];
        var vectors := oldVectors;
        var i := 0;
        while i < |inv| && i < |vectors|
          invariant 0 <= i <= |inv| && i <= |vectors| == |oldVectors|
          invariant forall j :: 0 <= j < i ==> inv[j] < |oldVectors| && vectors[j] == oldVectors[inv[j]]
        {
          if inv[i] >= |oldVectors| {
            morphs := morphs[m := vectors];
            return Some(IndexError);
          }
          vectors := vectors[i := oldVectors[inv[i]]];
          i := i + 1;
        }
        morphs := morphs[m := vectors];
        m := m + 1;
      }
      numVertices := |inv|;
      m := 0;
      ghost var written := morphs;
      while m < |morphs|
        invariant 0 <= m <= |morphs| == |written| && numVertices == |inv|
        invariant forall k :: m <= k < |morphs| ==> morphs[k] == written[k]
        invariant forall k :: 0 <= k < m ==> morphs[k] == Resize(written[k], |inv|, ZERO)
      {
        morphs := morphs[m := Resize(morphs[m], |inv|, ZERO)];
        m := m + 1;
      }
      err := None;
    }
  }

  const ZERO := Vector3(0.0, 0.0, 0.0)

  const NO_UV := TexCoord(0.0, 0.0)
  const NO_COLOR := Color4(0.0, 0.0, 0.0, 0.0)

  // ------------------------------------------------------ geometry blocks

  /** The index loop over one strip, as written. */
  method RemapStrip(vMap: seq<nat>, s: seq<nat>) returns (r: Result<seq<nat>, Raised>)
    ensures r == StripAsWritten(vMap, s, 0)
  {
    var strip: seq<nat> := s;
    var i := 0;
    while i < |strip|
      invariant 0 <= i <= |strip| == |s|
      invariant StripAsWritten(vMap, strip, i) == StripAsWritten(vMap, s, 0)
    {
      if strip[i] < |vMap| {
        strip := strip[i := vMap[strip[i]]];
      } else if i > 0 {
        strip := strip[i := strip[i - 1]];
      } else if i + 1 < |strip| {
        strip := strip[i := strip[i + 1]];
      } else {
        return Err(IndexError);
      }
      i := i + 1;
    }
    r := Ok(strip);
  }

  /** The index loop over one strip with the repair corrected: a leading
      run of bad indices takes the re-pointed first good index. */
  method RepairStrip(vMap: seq<nat>, s: seq<nat>) returns (r: Result<seq<nat>, Raised>)
    ensures r == StripRepaired(vMap, s)
  {
    var p := 0;
    while p < |s| && s[p] >= |vMap|
      invariant 0 <= p <= |s| && FirstValid(vMap, s, p) == FirstValid(vMap, s, 0)
    {
      p := p + 1;
    }
    assert FirstValid(vMap, s, p) == p;
    if p == |s| {
      if s == [] {
        return Ok([]);
      }
      return Err(IndexError);
    }
    ghost var total := RepairFrom(vMap, s, 0, vMap[s[p]]);
    var strip: seq<nat> := s;
    var prev := vMap[s[p]];
    var i := 0;
    while i < |strip|
      invariant 0 <= i <= |strip| == |s| == |total|
      invariant forall k :: i <= k < |s| ==> strip[k] == s[k]
      invariant forall k :: 0 <= k < i ==> strip[k] == total[k]
      invariant RepairFrom(vMap, s, i, prev) == total[i..]
    {
      var v := if strip[i] < |vMap| then vMap[strip[i]] else prev;
      TailStep(total, i, v, RepairFrom(vMap, s, i + 1, v));
      strip := strip[i := v];
      prev := v;
      i := i + 1;
    }
    assert strip == total;
    r := Ok(strip);
  }

  /** Splitting the head off a suffix. */
  lemma TailStep(total: seq<nat>, i: nat, v: nat, rest: seq<nat>)
    requires i < |total| && total[i..] == [v] + rest
    ensures total[i] == v && total[i + 1..] == rest
  {
    assert total[i] == total[i..][0];
    assert total[i + 1..] == total[i..][1..];
  }

  /** The per-vertex part of a geometry data block. */
  datatype VertexArrays = VertexArrays(
    numVertices: nat, hasVertices: bool, hasNormals: bool, hasVertexColors: bool,
    vertices: seq<Vector3>, normals: seq<Vector3>, uvSets: seq<seq<TexCoord>>, vertexColors: seq<Color4>)

  /** Every array that is present holds one entry per vertex; an absent
      one is empty. */
  predicate WellSized(a: VertexArrays)
  {
    |a.vertices| == (if a.hasVertices then a.numVertices else 0) &&
    |a.normals| == (if a.hasNormals then a.numVertices else 0) &&
    |a.vertexColors| == (if a.hasVertexColors then a.numVertices else 0) &&
    forall j :: 0 <= j < |a.uvSets| ==> |a.uvSets[j]| == a.numVertices
  }

  /** The arrays after compaction through `inv`: `num_vertices` is the new
      count, every present array and every UV set is rebuilt, and the
      presence flags stay as they were. */
  function CompactArrays(a: VertexArrays, inv: seq<nat>): (r: VertexArrays)
    requires WellSized(a) && forall k :: 0 <= k < |inv| ==> inv[k] < a.numVertices
    ensures WellSized(r) && r.numVertices == |inv|
  {
    a.(numVertices := |inv|,
       vertices := if a.hasVertices then Compact(a.vertices, inv) else a.vertices,
       normals := if a.hasNormals then Compact(a.normals, inv) else a.normals,
       uvSets := CompactEach(a.uvSets, inv),
       vertexColors := if a.hasVertexColors then Compact(a.vertexColors, inv) else a.vertexColors)
  }

  /** Vertex data whose every array is determined by the vertex hashes
      comes through compaction intact: each old vertex, looked up through
      its new index, has the same position, normal, UV coordinates and
      colour as before. */
  lemma CompactArraysLossless(h: seq<int>, a: VertexArrays)
    requires WellSized(a) && |h| == a.numVertices
    requires a.hasVertices ==> DeterminedBy(h, a.vertices)
    requires a.hasNormals ==> DeterminedBy(h, a.normals)
    requires a.hasVertexColors ==> DeterminedBy(h, a.vertexColors)
    requires forall j :: 0 <= j < |a.uvSets| ==> DeterminedBy(h, a.uvSets[j])
    ensures forall k :: 0 <= k < |VMapInverse(h)| ==> VMapInverse(h)[k] < a.numVertices
    ensures var r := CompactArrays(a, VMapInverse(h));
      forall i :: 0 <= i < |h| ==>
        VMap(h)[i] < r.numVertices &&
        (a.hasVertices ==> r.vertices[VMap(h)[i]] == a.vertices[i]) &&
        (a.hasNormals ==> r.normals[VMap(h)[i]] == a.normals[i]) &&
        (a.hasVertexColors ==> r.vertexColors[VMap(h)[i]] == a.vertexColors[i]) &&
        forall j :: 0 <= j < |a.uvSets| ==> r.uvSets[j][VMap(h)[i]] == a.uvSets[j][i]
  {
    VMapInverseIncreasing(h);
    forall i | 0 <= i < |h|
      ensures VMap(h)[i] < |VMapInverse(h)|
    {
      VMapRepresentative(h, i);
    }
    if a.hasVertices {
      CompactLossless(h, a.vertices);
    }
    if a.hasNormals {
      CompactLossless(h, a.normals);
    }
    if a.hasVertexColors {
      CompactLossless(h, a.vertexColors);
    }
    forall j | 0 <= j < |a.uvSets|
      ensures forall i :: 0 <= i < |h| ==>
        VMap(h)[i] < |VMapInverse(h)| && Compact(a.uvSets[j], VMapInverse(h))[VMap(h)[i]] == a.uvSets[j][i]
    {
      CompactLossless(h, a.uvSets[j]);
    }
  }

  /** The copy loops of the optimizer over all vertex arrays: every
      present array, and every UV set, rebuilt through `v_map_inverse`. */
  method CompactArraysCopy(a: VertexArrays, inv: seq<nat>) returns (r: VertexArrays)
    requires WellSized(a) && forall k :: 0 <= k < |inv| ==> inv[k] < a.numVertices
    ensures r == CompactArrays(a, inv)
  {
    ghost var goal := CompactArrays(a, inv);
    var newVertices, newNormals, newColors := a.vertices, a.normals, a.vertexColors;
    if a.hasVertices {
      newVertices := CompactCopy(a.vertices, inv, ZERO);
    }
    if a.hasNormals {
      newNormals := CompactCopy(a.normals, inv, ZERO);
    }
    if a.hasVertexColors {
      newColors := CompactCopy(a.vertexColors, inv, NO_COLOR);
    }
    var uvs := CompactEachCopy(a.uvSets, inv, NO_UV);
    r := VertexArrays(|inv|, a.hasVertices, a.hasNormals, a.hasVertexColors, newVertices, newNormals, uvs, newColors);
    assert goal == r;
  }

  /** The triangle loop: the corners of each triangle in turn are
      re-pointed through `v_map`; the first corner outside it raises
      IndexError. */
  method RemapTriangleList(vMap: seq<nat>, tris: seq<Triangle>) returns (r: Result<seq<Triangle>, Raised>)
    ensures r == RemapTriangles(vMap, tris)
  {
    var out := tris;
    var k := 0;
    while k < |out|
      invariant 0 <= k <= |out| == |tris|
      invariant forall j :: 0 <= j < k ==> CornersIn(tris[j], |vMap|)
      invariant forall j :: 0 <= j < k ==> out[j] == RemapCorners(vMap, tris[j])
      invariant forall j :: k <= j < |out| ==> out[j] == tris[j]
    {
      if !CornersIn(out[k], |vMap|) {
        return Err(IndexError);
      }
      out := out[k := RemapCorners(vMap, out[k])];
      k := k + 1;
    }
    assert out == seq(|tris|, j requires 0 <= j < |tris| => RemapCorners(vMap, tris[j]));
    r := Ok(out);
  }

  /** A NiTriShapeData or NiTriStripsData block. */
  class TriGeomData {
    var numVertices: nat
    var hasVertices: bool
    var hasNormals: bool
    var hasVertexColors: bool
    var vertices: seq<Vector3>
    var normals: seq<Vector3>
    var uvSets: seq<seq<TexCoord>>
    var vertexColors: seq<Color4>
    /** A NiTriStripsData, whose faces are the strips in `points`, rather
        than a NiTriShapeData, whose faces are `triangles`. */
    var isStrips: bool
    var points: seq<seq<nat>>
    var triangles: seq<Triangle>
    var numTriangles: nat

    /** Every per-vertex array that is present holds one entry per vertex;
        an absent one is empty. */
    predicate Valid()
      reads this
    {
      WellSized(Arrays())
    }

    /** Everything about the faces. */
    function Faces(): (bool, seq<seq<nat>>, seq<Triangle>, nat)
      reads this
    {
      (isStrips, points, triangles, numTriangles)
    }

    /** Everything about the vertices. */
    function Arrays(): VertexArrays
      reads this
    {
      VertexArrays(numVertices, hasVertices, hasNormals, hasVertexColors, vertices, normals, uvSets, vertexColors)
    }

    /** Setting `num_vertices` to the new count and rebuilding every
        present array, and every UV set, through `v_map_inverse`. */
    method CompactVertexData(inv: seq<nat>)
      requires Valid() && forall k :: 0 <= k < |inv| ==> inv[k] < numVertices
      modifies this
      ensures Valid() && Faces() == old(Faces())
      ensures Arrays() == CompactArrays(old(Arrays()), inv)
    {
      var a := CompactArraysCopy(Arrays(), inv);
      numVertices, vertices, normals, uvSets, vertexColors := a.numVertices, a.vertices, a.normals, a.uvSets, a.vertexColors;
    }

    /** Re-pointing the corners of every triangle through `v_map`; the
        first corner outside `v_map` raises IndexError. */
    method RemapTriangleIndices(vMap: seq<nat>) returns (r: Option<Raised>)
      modifies this
      ensures Arrays() == old(Arrays())
      ensures isStrips == old(isStrips) && points == old(points) && numTriangles == old(numTriangles)
      ensures r.None? <==> RemapTriangles(vMap, old(triangles)).Ok?
      ensures r.None? ==> triangles == RemapTriangles(vMap, old(triangles)).value
      ensures r.Some? ==> r == Some(IndexError)
    {
      var done := RemapTriangleList(vMap, triangles);
      if done.Err? {
        return Some(done.error);
      }
      triangles := done.value;
      r := None;
    }

    /** Re-pointing every strip through `v_map` by the strip loop as the
        program writes it (RemapStrip); the first strip whose loop raises
        stops the update. */
    method RemapStripIndices(vMap: seq<nat>) returns (r: Option<Raised>)
      modifies this
      ensures Arrays() == old(Arrays())
      ensures isStrips == old(isStrips) && triangles == old(triangles) && numTriangles == old(numTriangles)
      ensures r.None? <==> forall k :: 0 <= k < |old(points)| ==> StripAsWritten(vMap, old(points)[k], 0).Ok?
      ensures r.None? ==> |points| == |old(points)|
      ensures r.None? ==> forall k :: 0 <= k < |points| && k < |old(points)| ==>
        StripAsWritten(vMap, old(points)[k], 0) == Ok(points[k])
      ensures r.Some? ==> r == Some(IndexError)
    {
      var strips := points;
      var k := 0;
      while k < |strips|
        invariant 0 <= k <= |strips| == |old(points)|
        invariant Arrays() == old(Arrays()) && Faces() == old(Faces())
        invariant forall j :: 0 <= j < k ==> StripAsWritten(vMap, old(points)[j], 0) == Ok(strips[j])
        invariant forall j :: k <= j < |strips| ==> strips[j] == old(points)[j]
      {
        var done := RemapStrip(vMap, strips[k]);
        if done.Err? {
          StripAsWrittenFailsWith(vMap, strips[k], 0);
          return Some(done.error);
        }
        strips := strips[k := done.value];
        k := k + 1;
      }
      points := strips;
      r := None;
    }
  }

  /** The only exception the strip loop can raise is IndexError. */
  lemma {:induction false} StripAsWrittenFailsWith(vMap: seq<nat>, s: seq<nat>, i: nat)
    requires i <= |s|
    ensures StripAsWritten(vMap, s, i).Err? ==> StripAsWritten(vMap, s, i).error == IndexError
    decreases |s| - i
  {
    if i < |s| {
      if s[i] < |vMap| {
        StripAsWrittenFailsWith(vMap, s[i := vMap[s[i]]], i + 1);
      } else if i > 0 {
        StripAsWrittenFailsWith(vMap, s[i := s[i - 1]], i + 1);
      } else if i + 1 < |s| {
        StripAsWrittenFailsWith(vMap, s[i := s[i + 1]], i + 1);
      }
    }
  }

  // ------------------------------------------------------ the spell

  /** The vertex part of `branchentry`: the unique map of the hashes, the
      compaction of the vertex arrays, and the re-pointing of the strips
      or triangles. */
  method OptimizeData(data: TriGeomData, hashes: seq<int>) returns (inv: seq<nat>, err: Option<Raised>)
    requires data.Valid() && |hashes| == data.numVertices
    modifies data
    ensures inv == VMapInverse(hashes) && forall k :: 0 <= k < |inv| ==> inv[k] < |hashes|
    ensures data.Valid() && data.Arrays() == CompactArrays(old(data.Arrays()), inv)
    ensures data.isStrips == old(data.isStrips) && data.numTriangles == old(data.numTriangles)
    ensures err.Some? ==> err == Some(IndexError)
    ensures err.None? <==>
      if old(data.isStrips)
      then forall k :: 0 <= k < |old(data.points)| ==> StripAsWritten(VMap(hashes), old(data.points)[k], 0).Ok?
      else RemapTriangles(VMap(hashes), old(data.triangles)).Ok?
    ensures err.None? && !data.isStrips ==> RemapTriangles(VMap(hashes), old(data.triangles)) == Ok(data.triangles)
    ensures err.None? && data.isStrips ==>
      |data.points| == |old(data.points)| &&
      forall k :: 0 <= k < |data.points| ==> StripAsWritten(VMap(hashes), old(data.points)[k], 0) == Ok(data.points[k])
  {
    VMapInverseIncreasing(hashes);
    var vMap;
    vMap, inv := ComputeUniqueMap(hashes);
    data.CompactVertexData(inv);
    if data.isStrips {
      err := data.RemapStripIndices(vMap);
    } else {
      err := data.RemapTriangleIndices(vMap);
    }
  }

  /** The spell's `STITCH` setting. */
  const STITCH := true

  /** What `branchentry` did with one block. */
  datatype GeomOutcome =
    | NotGeometry                                 // not a NiTriBasedGeom: recursion goes on
    | AlreadyOptimized                            // listed among the optimized geometries
    | RemovedDegenerate                           // fewer than 3 vertices: replaced by nothing
    | Failed(error: Raised)                       // a corner outside `v_map` raised
    | MorphFailed(plan: StripPlan, error: Raised) // skin regrouped, then the morph update raised
    | Optimized(plan: StripPlan)                  // what the re-stripified geometry becomes
  {
    /** The vertex arrays were compacted. */
    predicate Compacted()
    {
      Failed? || MorphFailed? || Optimized?
    }

    /** The faces were re-pointed and the skin regrouped. */
    predicate Remapped()
    {
      MorphFailed? || Optimized?
    }
  }

  /** SpellOptimizeGeometry: its flag that the file changed and its list of
      geometries already optimized (block handles). */
  class OptimizeGeometrySpell {
    var changed: bool
    var optimized: seq<nat>

    constructor()
      ensures !changed && optimized == []
    {
      changed, optimized := false, [];
    }

    /** `branchentry` on block `branch` with geometry `data`, the vertex
        hashes `hashes` of that data, the strip lengths `newLengths` that
        the tri-strip library produces for it, its skin (if any) with the
        bone weights per vertex read before the update, and the data of its
        morph controller (if any). The list of optimized geometries is
        never extended, so a geometry reached twice is processed twice
        (ReoptimizeIsIdentity shows that the vertex step is then the
        identity). */
    method BranchEntry(branch: nat, isTriBasedGeom: bool, data: TriGeomData, hashes: seq<int>,
                       newLengths: seq<nat>, skin: SkinData?, oldWeights: seq<seq<BoneLink>>,
                       morph: MorphData?)
      returns (recurse: bool, outcome: GeomOutcome)
      requires data.Valid() && |hashes| == data.numVertices
      requires skin != null ==> skin.Valid() && |oldWeights| == data.numVertices
      modifies this, data, skin, morph
      ensures forall k :: 0 <= k < |VMapInverse(hashes)| ==> VMapInverse(hashes)[k] < |hashes|
      ensures optimized == old(optimized)
      ensures recurse <==> !isTriBasedGeom
      ensures outcome == NotGeometry <==> !isTriBasedGeom
      ensures outcome == AlreadyOptimized <==> isTriBasedGeom && branch in old(optimized)
      ensures changed == (old(changed) || (isTriBasedGeom && branch !in old(optimized)))
      ensures outcome == RemovedDegenerate <==>
        isTriBasedGeom && branch !in old(optimized) && old(data.numVertices) < 3
      ensures !outcome.Compacted() ==>
        data.Arrays() == old(data.Arrays()) && data.Faces() == old(data.Faces())
      ensures !outcome.Remapped() ==> (skin != null ==> unchanged(skin)) && (morph != null ==> unchanged(morph))
      ensures outcome.Compacted() ==>
        isTriBasedGeom && branch !in old(optimized) && old(data.numVertices) >= 3 &&
        data.Valid() && data.Arrays() == CompactArrays(old(data.Arrays()), VMapInverse(hashes))
      ensures outcome.Failed? || outcome.MorphFailed? ==> outcome.error == IndexError
      ensures outcome.Compacted() ==>
        (outcome.Failed? <==>
          if old(data.isStrips)
          then exists k :: 0 <= k < |old(data.points)| && StripAsWritten(VMap(hashes), old(data.points)[k], 0).Err?
          else RemapTriangles(VMap(hashes), old(data.triangles)).Err?)
      ensures outcome.Remapped() && !data.isStrips ==>
        RemapTriangles(VMap(hashes), old(data.triangles)) == Ok(data.triangles)
      ensures outcome.Remapped() && data.isStrips ==>
        |data.points| == |old(data.points)| &&
        forall k :: 0 <= k < |data.points| ==> StripAsWritten(VMap(hashes), old(data.points)[k], 0) == Ok(data.points[k])
      ensures outcome.Remapped() ==> outcome.plan == StripPlanFor(data.numTriangles, newLengths, STITCH)
      ensures outcome.Remapped() && skin != null ==>
        skin.Valid() && |skin.boneVertexWeights| == old(|skin.boneVertexWeights|) &&
        forall b :: 0 <= b < |skin.boneVertexWeights| ==>
          skin.boneVertexWeights[b] == BoneWeights(Compact(oldWeights, VMapInverse(hashes)), |VMapInverse(hashes)|, b) &&
          skin.boneNumVertices[b] == |skin.boneVertexWeights[b]|
      ensures outcome.Remapped() ==>
        (outcome.MorphFailed? <==>
          morph != null && exists k :: 0 <= k < |old(morph.morphs)| && !MorphPairsIn(VMapInverse(hashes), old(morph.morphs)[k]))
      ensures outcome.MorphFailed? ==>
        morph.numVertices == old(morph.numVertices) && |morph.morphs| == old(|morph.morphs|)
      ensures outcome.Optimized? && morph != null ==>
        morph.numVertices == |VMapInverse(hashes)| && |morph.morphs| == old(|morph.morphs|) &&
        forall k :: 0 <= k < |morph.morphs| ==> |morph.morphs[k]| == |VMapInverse(hashes)|
      ensures outcome.Optimized? && morph != null ==>
        forall k, i :: 0 <= k < |morph.morphs| && 0 <= i < |VMapInverse(hashes)| ==>
          morph.morphs[k][i] ==
            if i < |old(morph.morphs)[k]| then old(morph.morphs)[k][VMapInverse(hashes)[i]] else ZERO
    {
      VMapInverseIncreasing(hashes);
      if !isTriBasedGeom {
        return true, NotGeometry;
      }
      if branch in optimized {
        return false, AlreadyOptimized;
      }
      changed := true;
      if data.numVertices < 3 {
        return false, RemovedDegenerate;
      }
      var inv, err := OptimizeData(data, hashes);
      if err.Some? {
        return false, Failed(err.value);
      }
      var plan := StripPlanFor(data.numTriangles, newLengths, STITCH);
      if skin != null {
        skin.RegroupWeights(oldWeights, inv);
      }
      if morph != null {
        var morphErr := morph.CompactMorphs(inv);
        if morphErr.Some? {
          return false, MorphFailed(plan, morphErr.value);
        }
      }
      return false, Optimized(plan);
    }
  }
}
