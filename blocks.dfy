/** The block graph of a NIF file: blocks are integer handles into a map,
    each block a record with a kind tag and its reference fields. A
    reference that Python holds as a block or None is an
    `Option<Handle>`; a list of references is a sequence of them. */
module Blocks {
  import opened Common
  import opened Geometry

  type Handle = nat

  /** The block classes the optimizers tell apart. The `Other...` kinds
      stand for any further subclass of the named base class. */
  datatype Kind =
    | NiNode
    | NiTriShape
    | NiTriStrips
    | OtherAVObject(avName: string)
    | NiMaterialProperty
    | BSShaderProperty(shaderName: string)
    | OtherProperty(propertyName: string)
    | NiSourceTexture
    | OtherObjectNET(netName: string)
    | NiTriShapeData
    | NiTriStripsData
    | NiTimeController(controllerName: string)
    | BhkCollisionObject
    | NiDefaultAVObjectPalette
    | NiSkinInstance
    | NiPSysMeshEmitter
    | OtherObject(objectName: string)

  /** The Python class name, as compared against an `exclude` list. */
  function ClassName(k: Kind): string
  {
    match k
    case NiNode => "NiNode"
    case NiTriShape => "NiTriShape"
    case NiTriStrips => "NiTriStrips"
    case OtherAVObject(n) => n
    case NiMaterialProperty => "NiMaterialProperty"
    case BSShaderProperty(n) => n
    case OtherProperty(n) => n
    case NiSourceTexture => "NiSourceTexture"
    case OtherObjectNET(n) => n
    case NiTriShapeData => "NiTriShapeData"
    case NiTriStripsData => "NiTriStripsData"
    case NiTimeController(n) => n
    case BhkCollisionObject => "bhkCollisionObject"
    case NiDefaultAVObjectPalette => "NiDefaultAVObjectPalette"
    case NiSkinInstance => "NiSkinInstance"
    case NiPSysMeshEmitter => "NiPSysMeshEmitter"
    case OtherObject(n) => n
  }

  predicate IsNiGeometry(k: Kind)
  {
    k.NiTriShape? || k.NiTriStrips?
  }

  predicate IsNiAVObject(k: Kind)
  {
    k.NiNode? || IsNiGeometry(k) || k.OtherAVObject?
  }

  predicate IsNiProperty(k: Kind)
  {
    k.NiMaterialProperty? || k.BSShaderProperty? || k.OtherProperty?
  }

  predicate IsNiObjectNET(k: Kind)
  {
    IsNiAVObject(k) || IsNiProperty(k) || k.NiSourceTexture? || k.OtherObjectNET?
  }

  predicate IsNiTriBasedGeomData(k: Kind)
  {
    k.NiTriShapeData? || k.NiTriStripsData?
  }

  /** The header attributes of a geometry data block that the vertex
      arrays do not already hold. */
  datatype ShapeHeader = ShapeHeader(
    keepFlags: int, compressFlags: int, center: Vector3, radius: real,
    hasUv: bool, consistencyFlags: int)

  /** The contents of a NiTriShapeData or NiTriStripsData block. */
  datatype ShapeFields = ShapeFields(
    header: ShapeHeader, arrays: VertexArrays, points: seq<seq<nat>>, triangles: seq<Triangle>)

  /** One block. A field that the block's class does not have is empty. */
  datatype Block = Block(
    kind: Kind,
    name: string,
    controller: Option<Handle>,       // NiObjectNET
    extraDatas: seq<Option<Handle>>,  // NiObjectNET
    properties: seq<Option<Handle>>,  // NiAVObject
    children: seq<Option<Handle>>,    // NiNode
    effects: seq<Option<Handle>>,     // NiNode
    target: Option<Handle>,           // NiTimeController, bhkCollisionObject
    avObjects: seq<Option<Handle>>,   // NiDefaultAVObjectPalette
    bones: seq<Option<Handle>>,       // NiSkinInstance
    skinInstance: Option<Handle>,     // NiGeometry
    data: Option<Handle>,             // NiGeometry
    fileName: string,                 // NiSourceTexture
    shape: ShapeFields)               // NiTriBasedGeomData

  /** Whether `b` holds a reference to `x` in any of its fields. */
  predicate LinksTo(b: Block, x: Handle)
  {
    b.controller == Some(x) || Some(x) in b.extraDatas || Some(x) in b.properties ||
    Some(x) in b.children || Some(x) in b.effects || b.target == Some(x) ||
    Some(x) in b.avObjects || Some(x) in b.bones || b.skinInstance == Some(x) ||
    b.data == Some(x)
  }

  // ------------------------------------------------ reference-list cleaning

  /** A reference list with every None and every repeated reference
      removed, the first occurrence of each reference kept in place. */
  function Cleaned(s: seq<Option<Handle>>): (r: seq<Option<Handle>>)
    ensures |r| <= |s|
    ensures forall k :: 0 <= k < |r| ==> r[k].Some?
  {
    if s == [] then []
    else
      var c := Cleaned(s[..|s| - 1]);
      var x := s[|s| - 1];
      if x.None? || x in c then c else c + [x]
  }

  predicate NoneFree(s: seq<Option<Handle>>)
  {
    forall k :: 0 <= k < |s| ==> s[k].Some?
  }

  predicate Distinct<T(==)>(s: seq<T>)
  {
    forall i, j :: 0 <= i < j < |s| ==> s[i] != s[j]
  }

  lemma Snoc<T>(s: seq<T>)
    requires s != []
    ensures s[..|s| - 1] + [s[|s| - 1]] == s
  {
  }

  /** The cleaned list references exactly the blocks the input references. */
  lemma {:induction false} CleanedMembers(s: seq<Option<Handle>>)
    ensures forall x :: x in Cleaned(s) <==> x.Some? && x in s
  {
    if s != [] {
      var p := s[..|s| - 1];
      CleanedMembers(p);
      Snoc(s);
    }
  }

  /** No reference appears twice in the cleaned list. */
  lemma {:induction false} CleanedDistinct(s: seq<Option<Handle>>)
    ensures Distinct(Cleaned(s))
  {
    if s != [] {
      CleanedDistinct(s[..|s| - 1]);
    }
  }

  /** The position of the first occurrence of `x` in `s`. */
  function IndexOf<T(==)>(s: seq<T>, x: T): (r: nat)
    requires x in s
    ensures r < |s| && s[r] == x
    ensures forall q :: 0 <= q < r ==> s[q] != x
  {
    if s[0] == x then 0 else 1 + IndexOf(s[1..], x)
  }

  lemma IndexOfSnoc<T>(p: seq<T>, y: T, x: T)
    requires x in p
    ensures IndexOf(p + [y], x) == IndexOf(p, x)
  {
    var a, b := IndexOf(p + [y], x), IndexOf(p, x);
    assert (p + [y])[b] == x;
  }

  /** The cleaned list keeps the order of first occurrences. */
  lemma {:induction false} CleanedOrder(s: seq<Option<Handle>>)
    ensures forall x :: x in Cleaned(s) ==> x in s
    ensures forall i, j :: 0 <= i < j < |Cleaned(s)| ==> IndexOf(s, Cleaned(s)[i]) < IndexOf(s, Cleaned(s)[j])
  {
    CleanedMembers(s);
    if s != [] {
      var p, x := s[..|s| - 1], s[|s| - 1];
      var c := Cleaned(p);
      CleanedOrder(p);
      Snoc(s);
      forall y | y in c
        ensures IndexOf(s, y) == IndexOf(p, y) < |p|
      {
        IndexOfSnoc(p, x, y);
      }
      if !(x.None? || x in c) {
        CleanedMembers(p);
        assert IndexOf(s, x) == |p|;
        assert forall i :: 0 <= i < |c| ==> (c + [x])[i] == c[i];
      }
    }
  }

  /** The list comes back unchanged exactly when it was already clean, and
      then nothing is dropped. */
  lemma {:induction false} CleanedKeepsAllIff(s: seq<Option<Handle>>)
    ensures |Cleaned(s)| == |s| <==> NoneFree(s) && Distinct(s)
    ensures |Cleaned(s)| == |s| <==> Cleaned(s) == s
  {
    if s != [] {
      var p, x := s[..|s| - 1], s[|s| - 1];
      CleanedKeepsAllIff(p);
      CleanedMembers(p);
      Snoc(s);
      if NoneFree(s) && Distinct(s) {
        assert NoneFree(p) && Distinct(p);
        assert x !in p;
      }
      if |Cleaned(s)| == |s| {
        assert Cleaned(s) == Cleaned(p) + [x];
        assert Distinct(s) by {
          forall i, j | 0 <= i < j < |s|
            ensures s[i] != s[j]
          {
            if j == |s| - 1 {
              assert s[i] == p[i];
            } else {
              assert s[i] == p[i] && s[j] == p[j];
            }
          }
        }
      }
    }
  }

  /** Cleaning a clean list changes nothing. */
  lemma CleanedIdempotent(s: seq<Option<Handle>>)
    ensures Cleaned(Cleaned(s)) == Cleaned(s)
  {
    CleanedDistinct(s);
    CleanedKeepsAllIff(Cleaned(s));
  }

  // ---------------------------------------------------- global replacement

  /** `target` replaced by `repl` in a reference list, slot by slot: when
      `repl` is None the slot is kept and holds None. */
  function ReplaceInList(s: seq<Option<Handle>>, target: Handle, repl: Option<Handle>): (r: seq<Option<Handle>>)
  {
    if s == [] then []
    else
      var head := if s[0] != Some(target) then [s[0]] else [repl];
      head + ReplaceInList(s[1..], target, repl)
  }

  /** Which references the list holds after the replacement. */
  lemma {:induction false} ReplaceInListMembers(s: seq<Option<Handle>>, target: Handle, repl: Option<Handle>)
    ensures forall x :: x in ReplaceInList(s, target, repl) <==>
      (x in s && x != Some(target)) || (x == repl && Some(target) in s)
  {
    if s != [] {
      ReplaceInListMembers(s[1..], target, repl);
      assert s == [s[0]] + s[1..];
    }
  }

  /** The list keeps its length and every slot that held `target` now holds
      the replacement, None included. */
  lemma {:induction false} ReplaceInListSlots(s: seq<Option<Handle>>, target: Handle, repl: Option<Handle>)
    ensures |ReplaceInList(s, target, repl)| == |s|
    ensures forall k :: 0 <= k < |s| ==>
      ReplaceInList(s, target, repl)[k] == (if s[k] == Some(target) then repl else s[k])
  {
    if s != [] {
      ReplaceInListSlots(s[1..], target, repl);
    }
  }

  function ReplaceInField(f: Option<Handle>, target: Handle, repl: Option<Handle>): Option<Handle>
  {
    if f == Some(target) then repl else f
  }

  /** Every reference field of `b` with `target` replaced by `repl`. */
  function ReplaceInBlock(b: Block, target: Handle, repl: Option<Handle>): Block
  {
    b.(controller := ReplaceInField(b.controller, target, repl),
       extraDatas := ReplaceInList(b.extraDatas, target, repl),
       properties := ReplaceInList(b.properties, target, repl),
       children := ReplaceInList(b.children, target, repl),
       effects := ReplaceInList(b.effects, target, repl),
       target := ReplaceInField(b.target, target, repl),
       avObjects := ReplaceInList(b.avObjects, target, repl),
       bones := ReplaceInList(b.bones, target, repl),
       skinInstance := ReplaceInField(b.skinInstance, target, repl),
       data := ReplaceInField(b.data, target, repl))
  }

  /** `replace_global_node(target, repl)` on every block of the graph:
      no block is added or dropped and none changes class. */
  function ReplaceGlobal(blocks: map<Handle, Block>, target: Handle, repl: Option<Handle>): (r: map<Handle, Block>)
    ensures r.Keys == blocks.Keys
    ensures forall h :: h in blocks ==> r[h].kind == blocks[h].kind
  {
    map h | h in blocks :: ReplaceInBlock(blocks[h], target, repl)
  }

  /** After the replacement a block links `x` exactly when it linked `x`
      before, or when `x` is the replacement and it linked `target`. */
  lemma ReplaceInBlockLinks(b: Block, target: Handle, repl: Option<Handle>, x: Handle)
    requires repl != Some(target)
    ensures !LinksTo(ReplaceInBlock(b, target, repl), target)
    ensures x != target ==>
      (LinksTo(ReplaceInBlock(b, target, repl), x) <==> LinksTo(b, x) || (repl == Some(x) && LinksTo(b, target)))
  {
    ReplaceInListMembers(b.extraDatas, target, repl);
    ReplaceInListMembers(b.properties, target, repl);
    ReplaceInListMembers(b.children, target, repl);
    ReplaceInListMembers(b.effects, target, repl);
    ReplaceInListMembers(b.avObjects, target, repl);
    ReplaceInListMembers(b.bones, target, repl);
  }

  /** Global replacement is complete: no block still links `target`, every
      block that linked it links the replacement instead, all other links
      and every non-reference field stay as they were. */
  lemma ReplaceGlobalComplete(blocks: map<Handle, Block>, target: Handle, repl: Option<Handle>)
    requires repl != Some(target)
    ensures ReplaceGlobal(blocks, target, repl).Keys == blocks.Keys
    ensures forall h :: h in blocks ==>
      var b, b' := blocks[h], ReplaceGlobal(blocks, target, repl)[h];
      !LinksTo(b', target) &&
      b'.kind == b.kind && b'.name == b.name && b'.fileName == b.fileName && b'.shape == b.shape &&
      forall x :: x != target ==> (LinksTo(b', x) <==> LinksTo(b, x) || (repl == Some(x) && LinksTo(b, target)))
  {
    forall h, x | h in blocks
      ensures !LinksTo(ReplaceInBlock(blocks[h], target, repl), target)
      ensures x != target ==>
        (LinksTo(ReplaceInBlock(blocks[h], target, repl), x) <==>
          LinksTo(blocks[h], x) || (repl == Some(x) && LinksTo(blocks[h], target)))
    {
      ReplaceInBlockLinks(blocks[h], target, repl, x);
    }
  }

  /** The blocks of one loaded file and its list of root blocks. */
  class NifData {
    var roots: seq<Option<Handle>>
    var blocks: map<Handle, Block>
    /** The block type names the header lists; None for a file version
        whose header stores no such list. */
    const blockTypes: Option<seq<string>>

    constructor (roots: seq<Option<Handle>>, blocks: map<Handle, Block>, blockTypes: Option<seq<string>>)
      ensures this.roots == roots && this.blocks == blocks && this.blockTypes == blockTypes
    {
      this.roots := roots;
      this.blocks := blocks;
      this.blockTypes := blockTypes;
    }

    /** `inspectblocktype` of the spell engine, read as: some block of the
        file has a class that `k` picks out. */
    predicate HasBlockType(k: Kind -> bool)
      reads this
    {
      exists h :: h in blocks && k(blocks[h].kind)
    }

    /** `has_block_type` on the header: whether the header lists the type
        named `name`; None where the header stores no list and the call
        raises ValueError. */
    function HeaderHasBlockType(name: string): Option<bool>
    {
      if blockTypes.None? then None else Some(name in blockTypes.value)
    }

    /** `replace_global_node`: every reference to `target`, in the roots
        and in every block, is repointed to `repl`, or removed from its list
        when `repl` is None. */
    method ReplaceGlobalNode(target: Handle, repl: Option<Handle>)
      modifies this
      ensures blocks == ReplaceGlobal(old(blocks), target, repl)
      ensures roots == ReplaceInList(old(roots), target, repl)
    {
      roots := ReplaceInList(roots, target, repl);
      blocks := ReplaceGlobal(blocks, target, repl);
    }
  }
}
