/** The geometry routines of the older niftools optimizer script: the
    comparison of two geometry data blocks (`isequalTriGeomData`), the
    texture path repair (`fixTexturePath`) and the per-geometry
    optimization (`optimizeTriBasedGeom`), which removes duplicate
    vertices like the newer spell but re-points strips with no repair of
    bad indices. */
module LegacyGeometry {
  import opened Common
  import opened UniqueMap
  import opened Geometry
  import opened Blocks

  // ------------------------------------------------------ vertex hashes

  /** What the vertex hash generator looks at for one vertex: its entry in
      every array that is present. */
  datatype VertexKey = VertexKey(
    position: Option<Vector3>, normal: Option<Vector3>, uvs: seq<TexCoord>, color: Option<Color4>)

  function KeyAt(a: VertexArrays, i: nat): VertexKey
    requires WellSized(a) && i < a.numVertices
  {
    VertexKey(
      if a.hasVertices then Some(a.vertices[i]) else None,
      if a.hasNormals then Some(a.normals[i]) else None,
      seq(|a.uvSets|, j requires 0 <= j < |a.uvSets| => a.uvSets[j][i]),
      if a.hasVertexColors then Some(a.vertexColors[i]) else None)
  }

  /** `getVertexHashGenerator`: one hash per vertex; the hash function of
      the file format library is the parameter `hash`. */
  function VertexHashes(a: VertexArrays, hash: VertexKey -> int): (h: seq<int>)
    requires WellSized(a)
    ensures |h| == a.numVertices
  {
    seq(a.numVertices, i requires 0 <= i < a.numVertices => hash(KeyAt(a, i)))
  }

  /** A hash that tells every two different vertices apart makes every
      array a function of the hashes, so compaction loses nothing. */
  lemma InjectiveHashDetermines(a: VertexArrays, hash: VertexKey -> int)
    requires WellSized(a)
    requires forall x, y :: hash(x) == hash(y) ==> x == y
    ensures var h := VertexHashes(a, hash);
      |h| == a.numVertices &&
      (a.hasVertices ==> DeterminedBy(h, a.vertices)) &&
      (a.hasNormals ==> DeterminedBy(h, a.normals)) &&
      (a.hasVertexColors ==> DeterminedBy(h, a.vertexColors)) &&
      forall j :: 0 <= j < |a.uvSets| ==> DeterminedBy(h, a.uvSets[j])
  {
    var h := VertexHashes(a, hash);
    forall p, q | 0 <= p < |h| && 0 <= q < |h| && h[p] == h[q]
      ensures KeyAt(a, p) == KeyAt(a, q)
    {
    }
    forall j | 0 <= j < |a.uvSets|
      ensures DeterminedBy(h, a.uvSets[j])
    {
      forall p, q | 0 <= p < |h| && 0 <= q < |h| && h[p] == h[q]
        ensures a.uvSets[j][p] == a.uvSets[j][q]
      {
        assert KeyAt(a, p).uvs[j] == KeyAt(a, q).uvs[j];
      }
    }
  }

  // ------------------------------------------------- isequalTriGeomData

  /** The block a handle names; a handle outside the graph names an empty
      block of no known class. */
  function At(blocks: map<Handle, Block>, h: Handle): Block
  {
    if h in blocks then blocks[h] else NO_BLOCK
  }

  const NO_SHAPE := ShapeFields(
    ShapeHeader(0, 0, ZERO, 0.0, false, 0),
    VertexArrays(0, false, false, false, [], [], [], []), [], [])

  const NO_BLOCK := Block(OtherObject(""), "", None, [], [], [], [], None, [], [], None, None, "", NO_SHAPE)

  /** Every geometry data block holds one entry per vertex in each array
      it has. */
  predicate WellFormed(blocks: map<Handle, Block>)
  {
    forall h :: h in blocks && IsNiTriBasedGeomData(blocks[h].kind) ==> WellSized(blocks[h].shape.arrays)
  }

  /** `getTriangles`: the triangles of a NiTriShapeData, or the
      triangulated strips of a NiTriStripsData (the library's
      triangulation is the parameter `triangulate`). */
  function Faces(b: Block, triangulate: seq<seq<nat>> -> seq<Triangle>): seq<Triangle>
  {
    if b.kind.NiTriStripsData? then triangulate(b.shape.points) else b.shape.triangles
  }

  /** A triangle as the tuple of its corners' vertex hashes; a corner
      outside the hash list raises IndexError. */
  function HashTriangles(h: seq<int>, tris: seq<Triangle>): (r: Result<seq<(int, int, int)>, Raised>)
    ensures r.Ok? <==> forall k :: 0 <= k < |tris| ==> CornersIn(tris[k], |h|)
    ensures r.Ok? ==> |r.value| == |tris|
    ensures r.Err? ==> r.error == IndexError
  {
    if forall k :: 0 <= k < |tris| ==> CornersIn(tris[k], |h|) then
      Ok(seq(|tris|, k requires 0 <= k < |tris| => (h[tris[k].v1], h[tris[k].v2], h[tris[k].v3])))
    else
      Err(IndexError)
  }

  /** Mutual containment: the two lists hold the same values, however
      often each. */
  predicate SameElements<T(==)>(a: seq<T>, b: seq<T>)
  {
    (forall x :: x in a ==> x in b) && (forall x :: x in b ==> x in a)
  }

  /** The header attributes compared one by one: numVertices, the flags,
      hasVertices, numUvSets, hasNormals, center, radius, hasVertexColors,
      hasUv. */
  function Attributes(s: ShapeFields): (nat, ShapeHeader, bool, nat, bool, bool)
  {
    (s.arrays.numVertices, s.header, s.arrays.hasVertices, |s.arrays.uvSets|, s.arrays.hasNormals,
     s.arrays.hasVertexColors)
  }

  /** `isequalTriGeomData` on the data references `d1` and `d2` (None is
      Python's None): the same object, or two blocks of the same class
      whose attributes agree and whose vertex hashes and hashed triangles
      are contained in each other. Two blocks of the same class that is
      not geometry data raise AttributeError; a triangle corner outside
      its vertices raises IndexError. */
  function IsEqualTriGeomData(
    blocks: map<Handle, Block>, d1: Option<Handle>, d2: Option<Handle>,
    hash: VertexKey -> int, triangulate: seq<seq<nat>> -> seq<Triangle>): (r: Result<bool, Raised>)
    requires WellFormed(blocks)
    ensures d1 == d2 ==> r == Ok(true)
    ensures d1 != d2 && (d1.None? || d2.None?) ==> r == Ok(false)
    ensures r == Err(AttributeError) <==>
      d1 != d2 && d1.Some? && d2.Some? && At(blocks, d1.value).kind == At(blocks, d2.value).kind &&
      !IsNiTriBasedGeomData(At(blocks, d1.value).kind)
    ensures r.Err? ==> r.error == AttributeError || r.error == IndexError
    ensures d1.Some? && d2.Some? && At(blocks, d1.value).kind != At(blocks, d2.value).kind ==> r == Ok(false)
  {
    if d1 == d2 then Ok(true)
    else if d1.None? || d2.None? then Ok(false)
    else
      var b1, b2 := At(blocks, d1.value), At(blocks, d2.value);
      if b1.kind != b2.kind then Ok(false)
      else if !IsNiTriBasedGeomData(b1.kind) then Err(AttributeError)
      else if Attributes(b1.shape) != Attributes(b2.shape) then Ok(false)
      else
        var h1, h2 := VertexHashes(b1.shape.arrays, hash), VertexHashes(b2.shape.arrays, hash);
        if !SameElements(h1, h2) then Ok(false)
        else
          match (HashTriangles(h1, Faces(b1, triangulate)), HashTriangles(h2, Faces(b2, triangulate)))
          case (Ok(t1), Ok(t2)) => Ok(SameElements(t1, t2))
          case _ => Err(IndexError)
  }

  /** The comparison holds for identical objects and does not depend on
      the order of its arguments. */
  lemma IsEqualReflexiveSymmetric(
    blocks: map<Handle, Block>, d1: Option<Handle>, d2: Option<Handle>,
    hash: VertexKey -> int, triangulate: seq<seq<nat>> -> seq<Triangle>)
    requires WellFormed(blocks)
    ensures IsEqualTriGeomData(blocks, d1, d1, hash, triangulate) == Ok(true)
    ensures IsEqualTriGeomData(blocks, d1, d2, hash, triangulate) ==
      IsEqualTriGeomData(blocks, d2, d1, hash, triangulate)
  {
    if d1 != d2 && d1.Some? && d2.Some? {
      var b1, b2 := At(blocks, d1.value), At(blocks, d2.value);
      if b1.kind == b2.kind && IsNiTriBasedGeomData(b1.kind) && Attributes(b1.shape) == Attributes(b2.shape) {
        var h1, h2 := VertexHashes(b1.shape.arrays, hash), VertexHashes(b2.shape.arrays, hash);
        var r1, r2 := HashTriangles(h1, Faces(b1, triangulate)), HashTriangles(h2, Faces(b2, triangulate));
        if SameElements(h1, h2) && r1.Ok? && r2.Ok? {
          assert SameElements(r1.value, r2.value) == SameElements(r2.value, r1.value);
        }
      }
    }
  }

  /** What a positive answer on two different objects guarantees: both
      are geometry data of the same class with the same attributes, the
      same set of vertex hashes and the same set of hashed triangles. */
  lemma IsEqualMeans(
    blocks: map<Handle, Block>, d1: Handle, d2: Handle,
    hash: VertexKey -> int, triangulate: seq<seq<nat>> -> seq<Triangle>)
    requires WellFormed(blocks) && d1 != d2
    requires IsEqualTriGeomData(blocks, Some(d1), Some(d2), hash, triangulate) == Ok(true)
    ensures var b1, b2 := At(blocks, d1), At(blocks, d2);
      b1.kind == b2.kind && IsNiTriBasedGeomData(b1.kind) && Attributes(b1.shape) == Attributes(b2.shape) &&
      var h1, h2 := VertexHashes(b1.shape.arrays, hash), VertexHashes(b2.shape.arrays, hash);
      SameElements(h1, h2) &&
      var r1, r2 := HashTriangles(h1, Faces(b1, triangulate)), HashTriangles(h2, Faces(b2, triangulate));
      r1.Ok? && r2.Ok? && SameElements(r1.value, r2.value)
  {
  }

  /** Two different blocks with the same contents compare equal, as long
      as their triangles name existing vertices. */
  lemma IsEqualOfCopies(
    blocks: map<Handle, Block>, d1: Handle, d2: Handle,
    hash: VertexKey -> int, triangulate: seq<seq<nat>> -> seq<Triangle>)
    requires WellFormed(blocks) && d1 in blocks && d2 in blocks && blocks[d1] == blocks[d2]
    requires IsNiTriBasedGeomData(blocks[d1].kind)
    requires var b := blocks[d1];
      forall k :: 0 <= k < |Faces(b, triangulate)| ==> CornersIn(Faces(b, triangulate)[k], b.shape.arrays.numVertices)
    ensures IsEqualTriGeomData(blocks, Some(d1), Some(d2), hash, triangulate) == Ok(true)
  {
  }

  // ------------------------------------------------------ fixTexturePath

  /** Every `c` in `s` replaced by the string `rep`. */
  function Escape(s: string, c: char, rep: string): (r: string)
    ensures forall x :: x in r ==> (x in s && x != c) || x in rep
  {
    if s == [] then []
    else (if s[0] == c then rep else [s[0]]) + Escape(s[1..], c, rep)
  }

  /** A string without `c` is left as it is. */
  lemma {:induction false} EscapeAbsent(s: string, c: char, rep: string)
    requires c !in s
    ensures Escape(s, c, rep) == s
  {
    if s != [] {
      EscapeAbsent(s[1..], c, rep);
      assert s == [s[0]] + s[1..];
    }
  }

  /** `fixTexturePath`: a file name holding a line feed or a carriage
      return gets each of them written out as the two characters `\n` and
      `\r`; any other name is left alone. */
  function FixTexturePath(s: string): (r: string)
    ensures '\n' !in r && '\r' !in r
  {
    if '\n' in s || '\r' in s then Escape(Escape(s, '\n', "\\n"), '\r', "\\r") else s
  }

  /** A name without line breaks is unchanged, and fixing twice is fixing
      once. */
  lemma FixTexturePathStable(s: string)
    ensures '\n' !in s && '\r' !in s ==> FixTexturePath(s) == s
    ensures FixTexturePath(FixTexturePath(s)) == FixTexturePath(s)
  {
  }

  /** Only line breaks are rewritten: a name whose only line break is a
      final line feed gets `\n` written out in its place. */
  lemma FixTexturePathEscapes(s: string)
    requires '\n' !in s && '\r' !in s
    ensures FixTexturePath(s + ['\n']) == s + ['\\', 'n']
  {
    EscapeOfSnoc(s, '\n', "\\n");
    EscapeAbsent(s, '\n', "\\n");
    EscapeAbsent(s + ['\\', 'n'], '\r', "\\r");
  }

  lemma {:induction false} EscapeOfSnoc(s: string, c: char, rep: string)
    ensures Escape(s + [c], c, rep) == Escape(s, c, rep) + rep
  {
    if s == [] {
      assert [c][1..] == [];
    } else {
      assert (s + [c])[1..] == s[1..] + [c];
      EscapeOfSnoc(s[1..], c, rep);
    }
  }

  // ------------------------------------------------ optimizeTriBasedGeom

  /** The plain strip loop: every index t becomes `v_map[t]`, and an index
      outside `v_map` raises IndexError. */
  function RemapIndices(vMap: seq<nat>, s: seq<nat>): (r: Result<seq<nat>, Raised>)
    ensures r.Ok? <==> forall k :: 0 <= k < |s| ==> s[k] < |vMap|
    ensures r.Ok? ==> |r.value| == |s| && forall k :: 0 <= k < |s| ==> r.value[k] == vMap[s[k]]
    ensures r.Err? ==> r.error == IndexError
  {
    if forall k :: 0 <= k < |s| ==> s[k] < |vMap| then
      Ok(seq(|s|, k requires 0 <= k < |s| => vMap[s[k]]))
    else
      Err(IndexError)
  }

  /** Every strip re-pointed; IndexError if any strip has a bad index. */
  function RemapStrips(vMap: seq<nat>, strips: seq<seq<nat>>): (r: Result<seq<seq<nat>>, Raised>)
    ensures r.Ok? <==> forall j :: 0 <= j < |strips| ==> RemapIndices(vMap, strips[j]).Ok?
    ensures r.Ok? ==>
      |r.value| == |strips| && forall j :: 0 <= j < |strips| ==> RemapIndices(vMap, strips[j]) == Ok(r.value[j])
  {
    if forall j :: 0 <= j < |strips| ==> RemapIndices(vMap, strips[j]).Ok? then
      Ok(seq(|strips|, j requires 0 <= j < |strips| => RemapIndices(vMap, strips[j]).value))
    else
      Err(IndexError)
  }

  /** On a strip with no bad index the newer spell's repaired loop and
      this plain loop agree. */
  lemma PlainAgreesWithRepair(vMap: seq<nat>, s: seq<nat>)
    requires forall k :: 0 <= k < |s| ==> s[k] < |vMap|
    ensures StripRepaired(vMap, s) == RemapIndices(vMap, s)
  {
    if s != [] {
      assert FirstValid(vMap, s, 0) == 0;
      RepairFromInRange(vMap, s, 0, vMap[s[0]]);
      assert RepairFrom(vMap, s, 0, vMap[s[0]]) == seq(|s|, k requires 0 <= k < |s| => vMap[s[k]]);
    }
  }

  lemma {:induction false} RepairFromInRange(vMap: seq<nat>, s: seq<nat>, i: nat, prev: nat)
    requires i <= |s| && forall k :: 0 <= k < |s| ==> s[k] < |vMap|
    ensures forall k :: 0 <= k < |s| - i ==> RepairFrom(vMap, s, i, prev)[k] == vMap[s[i + k]]
    decreases |s| - i
  {
    if i < |s| {
      var v := vMap[s[i]];
      RepairFromInRange(vMap, s, i + 1, v);
      var rest := RepairFrom(vMap, s, i + 1, v);
      assert RepairFrom(vMap, s, i, prev) == [v] + rest;
      forall k | 0 < k < |s| - i
        ensures ([v] + rest)[k] == vMap[s[i + k]]
      {
        assert ([v] + rest)[k] == rest[k - 1];
        assert i + 1 + (k - 1) == i + k;
      }
    }
  }

  /** The nested loop over the strips of a NiTriStrips. */
  method RemapStripsPlain(vMap: seq<nat>, strips: seq<seq<nat>>) returns (r: Result<seq<seq<nat>>, Raised>)
    ensures r == RemapStrips(vMap, strips)
  {
    var out := strips;
    var j := 0;
    while j < |out|
      invariant 0 <= j <= |out| == |strips|
      invariant forall q :: 0 <= q < j ==> RemapIndices(vMap, strips[q]) == Ok(out[q])
      invariant forall q :: j <= q < |out| ==> out[q] == strips[q]
    {
      var strip := out[j];
      var i := 0;
      while i < |strip|
        invariant 0 <= i <= |strip| == |strips[j]|
        invariant forall k :: 0 <= k < i ==> strips[j][k] < |vMap| && strip[k] == vMap[strips[j][k]]
        invariant forall k :: i <= k < |strip| ==> strip[k] == strips[j][k]
      {
        if strip[i] >= |vMap| {
          return Err(IndexError);
        }
        strip := strip[i := vMap[strip[i]]];
        i := i + 1;
      }
      assert strip == seq(|strips[j]|, k requires 0 <= k < |strips[j]| => vMap[strips[j][k]]);
      out := out[j := strip];
      j := j + 1;
    }
    assert out == seq(|strips|, q requires 0 <= q < |strips| => RemapIndices(vMap, strips[q]).value);
    r := Ok(out);
  }

  /** The geometry after `optimizeTriBasedGeom` on a block of at least
      three vertices: arrays compacted through `v_map_inverse`, then the
      strips (`strips`) or triangles re-pointed through `v_map`. */
  function OptimizedShape(s: ShapeFields, strips: bool, hash: VertexKey -> int): (r: Result<ShapeFields, Raised>)
    requires WellSized(s.arrays)
    ensures r.Ok? ==> WellSized(r.value.arrays) && r.value.header == s.header
    ensures r.Err? ==> r.error == IndexError
  {
    var h := VertexHashes(s.arrays, hash);
    VMapInverseIncreasing(h);
    var arrays := CompactArrays(s.arrays, VMapInverse(h));
    if strips then
      match RemapStrips(VMap(h), s.points)
      case Ok(p) => Ok(s.(arrays := arrays, points := p))
      case Err(e) => Err(e)
    else
      match RemapTriangles(VMap(h), s.triangles)
      case Ok(t) => Ok(s.(arrays := arrays, triangles := t))
      case Err(e) => Err(e)
  }

  /** `optimizeTriBasedGeom` on a shape (a NiTriStrips when `strips`)
      whose data `s` is a NiTriStripsData when `dataIsStrips`: None, the
      block is to be removed, when the data has fewer than three vertices,
      whatever its class; otherwise the optimized data. Data whose class
      does not match the shape's lacks the strips or triangles the shape's class
      re-points, which raises AttributeError once the vertices are
      compacted. */
  function TriBasedGeomOptimized(s: ShapeFields, strips: bool, dataIsStrips: bool, hash: VertexKey -> int): (r: Result<Option<ShapeFields>, Raised>)
    requires WellSized(s.arrays)
    ensures r == Ok(None) <==> s.arrays.numVertices < 3
    ensures r == Err(AttributeError) <==> s.arrays.numVertices >= 3 && strips != dataIsStrips
    ensures r.Err? ==> r.error == AttributeError || r.error == IndexError
    ensures r.Ok? && r.value.Some? ==> WellSized(r.value.value.arrays) && r.value.value.header == s.header
  {
    if s.arrays.numVertices < 3 then Ok(None)
    else if strips != dataIsStrips then Err(AttributeError)
    else
      match OptimizedShape(s, strips, hash)
      case Ok(x) => Ok(Some(x))
      case Err(e) => Err(e)
  }

  method OptimizeTriBasedGeom(s: ShapeFields, strips: bool, dataIsStrips: bool, hash: VertexKey -> int)
    returns (r: Result<Option<ShapeFields>, Raised>)
    requires WellSized(s.arrays)
    ensures r == TriBasedGeomOptimized(s, strips, dataIsStrips, hash)
  {
    if s.arrays.numVertices < 3 {
      return Ok(None);
    }
    var vMap, vMapInverse := ComputeUniqueMap(VertexHashes(s.arrays, hash));
    VMapInverseIncreasing(VertexHashes(s.arrays, hash));
    var arrays := CompactArraysCopy(s.arrays, vMapInverse);
    if strips != dataIsStrips {
      return Err(AttributeError);
    }
    if strips {
      var done := RemapStripsPlain(vMap, s.points);
      if done.Err? {
        return Err(done.error);
      }
      r := Ok(Some(s.(arrays := arrays, points := done.value)));
    } else {
      var done := RemapTriangleList(vMap, s.triangles);
      if done.Err? {
        return Err(done.error);
      }
      r := Ok(Some(s.(arrays := arrays, triangles := done.value)));
    }
  }

  /** The optimization fails exactly on a bad strip or triangle index,
      keeps the number of faces, and leaves one vertex per distinct hash,
      never more than before. */
  lemma OptimizedShapeCounts(s: ShapeFields, strips: bool, hash: VertexKey -> int)
    requires WellSized(s.arrays)
    ensures var h := VertexHashes(s.arrays, hash);
      var r := OptimizedShape(s, strips, hash);
      (r.Ok? <==> if strips then forall j, k :: 0 <= j < |s.points| && 0 <= k < |s.points[j]| ==> s.points[j][k] < |h|
                  else forall k :: 0 <= k < |s.triangles| ==> CornersIn(s.triangles[k], |h|)) &&
      (r.Ok? ==> r.value.arrays.numVertices == |VMapInverse(h)| <= s.arrays.numVertices &&
                 |r.value.points| == |s.points| && |r.value.triangles| == |s.triangles|)
  {
    var h := VertexHashes(s.arrays, hash);
    VMapInverseIncreasing(h);
    if strips {
      var ok := forall j :: 0 <= j < |s.points| ==> RemapIndices(VMap(h), s.points[j]).Ok?;
      assert ok <==> forall j, k :: 0 <= j < |s.points| && 0 <= k < |s.points[j]| ==> s.points[j][k] < |h|;
    }
  }
}
