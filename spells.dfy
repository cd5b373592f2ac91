/** The pyffi spells that edit the block graph: cleaning reference lists
    (SpellCleanRefLists), merging interchangeable branches
    (SpellMergeDuplicates) and removing unused bones (SpellDelUnusedBones).
    Each spell is an object holding the loaded file, whose `branchentry`
    is called by the traversal once per visited block. */
module Spells {
  import opened Common
  import opened Blocks

  // ------------------------------------------------------ opt_cleanreflists

  /** `b` after the clean-up the spell applies to it: extra data for any
      NiObjectNET, properties for any NiAVObject, children and effects for
      a NiNode. */
  function CleanedBlock(b: Block): Block
  {
    var net := if IsNiObjectNET(b.kind) then b.(extraDatas := Cleaned(b.extraDatas)) else b;
    var av := if IsNiAVObject(b.kind) then net.(properties := Cleaned(net.properties)) else net;
    if b.kind.NiNode? then av.(children := Cleaned(av.children), effects := Cleaned(av.effects)) else av
  }

  /** Cleaning a block keeps every block it links and links nothing new. */
  lemma CleanedBlockLinks(b: Block, x: Handle)
    ensures CleanedBlock(b).kind == b.kind
    ensures LinksTo(CleanedBlock(b), x) <==> LinksTo(b, x)
  {
    var c := CleanedBlock(b);
    CleanedMembers(b.extraDatas);
    CleanedMembers(b.properties);
    CleanedMembers(b.children);
    CleanedMembers(b.effects);
    assert Some(x) in c.extraDatas <==> Some(x) in b.extraDatas;
    assert Some(x) in c.properties <==> Some(x) in b.properties;
    assert Some(x) in c.children <==> Some(x) in b.children;
    assert Some(x) in c.effects <==> Some(x) in b.effects;
  }

  /** Cleaning a block again changes nothing. */
  lemma CleanedBlockIdempotent(b: Block)
    ensures CleanedBlock(CleanedBlock(b)) == CleanedBlock(b)
  {
    CleanedIdempotent(b.extraDatas);
    CleanedIdempotent(b.properties);
    CleanedIdempotent(b.children);
    CleanedIdempotent(b.effects);
  }

  class SpellCleanRefLists {
    var changed: bool
    const data: NifData

    constructor (data: NifData)
      ensures this.data == data && !changed
    {
      this.data := data;
      changed := false;
    }

    /** `datainspect`: never on a file whose header lists a
        NiPSysMeshEmitter, otherwise only when it has some NiObjectNET; a
        header that cannot tell (ValueError) counts as one without the
        emitter. */
    function DataInspect(): (r: bool)
      reads data
      ensures data.blockTypes.None? ==> (r <==> data.HasBlockType(IsNiObjectNET))
      ensures data.blockTypes.Some? ==>
        (r <==> ClassName(NiPSysMeshEmitter) !in data.blockTypes.value && data.HasBlockType(IsNiObjectNET))
    {
      if data.HeaderHasBlockType(ClassName(NiPSysMeshEmitter)) == Some(true) then false
      else data.HasBlockType(IsNiObjectNET)
    }

    /** `cleanreflist`: the list without None and repeated references, in
        order of first occurrence; `changed` is raised exactly when an
        entry was dropped. */
    method CleanRefList(reflist: seq<Option<Handle>>) returns (cleanlist: seq<Option<Handle>>)
      modifies this
      ensures cleanlist == Cleaned(reflist)
      ensures changed == (old(changed) || cleanlist != reflist)
    {
      cleanlist := [];
      var i := 0;
      while i < |reflist|
        invariant 0 <= i <= |reflist|
        invariant cleanlist == Cleaned(reflist[..i])
        invariant changed == (old(changed) || |cleanlist| < i)
      {
        var ref := reflist[i];
        assert reflist[..i + 1][..i] == reflist[..i];
        if ref.None? {
          changed := true;
        } else if ref in cleanlist {
          changed := true;
        } else {
          cleanlist := cleanlist + [ref];
        }
        i := i + 1;
      }
      assert reflist[..i] == reflist;
      CleanedKeepsAllIff(reflist);
    }

    /** `dataentry`: the root list is cleaned the same way. */
    method DataEntry() returns (ok: bool)
      modifies this, data
      ensures data.roots == Cleaned(old(data.roots)) && data.blocks == old(data.blocks)
      ensures changed == (old(changed) || data.roots != old(data.roots))
      ensures ok
    {
      var roots := CleanRefList(data.roots);
      data.roots := roots;
      ok := true;
    }

    /** `branchentry`: the lists of `branch` are cleaned by its class, and
        the traversal always goes on below it. */
    method BranchEntry(branch: Handle) returns (recurse: bool)
      requires branch in data.blocks
      modifies this, data
      ensures data.blocks == old(data.blocks)[branch := CleanedBlock(old(data.blocks[branch]))]
      ensures data.roots == old(data.roots)
      ensures changed == (old(changed) || CleanedBlock(old(data.blocks[branch])) != old(data.blocks[branch]))
      ensures recurse
    {
      var b := data.blocks[branch];
      ghost var before := b;
      if IsNiObjectNET(b.kind) {
        var extra := CleanRefList(b.extraDatas);
        b := b.(extraDatas := extra);
      }
      if IsNiAVObject(b.kind) {
        var props := CleanRefList(b.properties);
        b := b.(properties := props);
      }
      if b.kind.NiNode? {
        var kids := CleanRefList(b.children);
        b := b.(children := kids);
        var effects := CleanRefList(b.effects);
        b := b.(effects := effects);
      }
      assert b == CleanedBlock(before);
      data.blocks := data.blocks[branch := b];
      recurse := true;
    }
  }

  // --------------------------------------------------- opt_mergeduplicates

  /** The position of the first recorded branch, other than `branch`
      itself, that is interchangeable with it; |branches| when there is
      none. */
  function FirstInterchangeable(branches: seq<Handle>, branch: Handle, interchangeable: (Handle, Handle) -> bool): (r: nat)
    ensures r <= |branches|
    ensures r < |branches| ==> branches[r] != branch && interchangeable(branch, branches[r])
    ensures forall k :: 0 <= k < r ==> branches[k] == branch || !interchangeable(branch, branches[k])
  {
    if branches == [] then 0
    else if branches[0] != branch && interchangeable(branch, branches[0]) then 0
    else 1 + FirstInterchangeable(branches[1..], branch, interchangeable)
  }

  /** Blocks the spell never replaces: a property with a controller, and
      any BSShaderProperty. */
  predicate NeverMerged(b: Block)
  {
    (IsNiProperty(b.kind) && b.controller.Some?) || b.kind.BSShaderProperty?
  }

  /** The recorded branch that replaces `branch` (whose block is `b`), if
      any: the earliest interchangeable one, unless `b` is never merged. */
  function MergeTarget(branches: seq<Handle>, branch: Handle, b: Block, interchangeable: (Handle, Handle) -> bool): (m: Option<Handle>)
    ensures m.Some? ==>
      !NeverMerged(b) && m.value in branches && m.value != branch && interchangeable(branch, m.value)
    ensures m.Some? ==> forall k :: 0 <= k < |branches| && branches[k] != branch && interchangeable(branch, branches[k]) ==>
      IndexOf(branches, m.value) <= k
    ensures m.None? <==>
      NeverMerged(b) || forall k :: 0 <= k < |branches| ==> branches[k] == branch || !interchangeable(branch, branches[k])
  {
    var r := FirstInterchangeable(branches, branch, interchangeable);
    if NeverMerged(b) || r == |branches| then None else Some(branches[r])
  }

  class SpellMergeDuplicates {
    var changed: bool
    /** Every branch visited so far that was not merged away. */
    var branches: seq<Handle>
    const data: NifData

    constructor (data: NifData)
      ensures this.data == data && !changed && branches == []
    {
      this.data := data;
      changed := false;
      branches := [];
    }

    /** `datainspect`: never on a file whose header lists a
        NiPSysMeshEmitter; a header that cannot tell (ValueError) lets the
        spell run. */
    function DataInspect(): (r: bool)
      ensures data.blockTypes.None? ==> r
      ensures data.blockTypes.Some? ==> (r <==> ClassName(NiPSysMeshEmitter) !in data.blockTypes.value)
    {
      match data.HeaderHasBlockType(ClassName(NiPSysMeshEmitter))
      case None => true
      case Some(listed) => !listed
    }

    /** The merge spell over the file: `datainspect`, then a visit of each
        block of `visits`, the order in which the traversal reaches them.
        When the header lists a NiPSysMeshEmitter nothing changes;
        otherwise the state becomes MergeRun of the old one. */
    method Run(visits: seq<Handle>, interchangeable: (Handle, Handle) -> bool) returns (ran: bool)
      modifies this, data
      ensures ran <==> data.blockTypes.None? || ClassName(NiPSysMeshEmitter) !in data.blockTypes.value
      ensures !ran ==>
        data.blocks == old(data.blocks) && data.roots == old(data.roots) &&
        branches == old(branches) && changed == old(changed)
      ensures ran ==>
        MergeState(data.blocks, data.roots, branches, changed) ==
        MergeRun(MergeState(old(data.blocks), old(data.roots), old(branches), old(changed)), visits, interchangeable)
    {
      ran := DataInspect();
      if !ran {
        return;
      }
      ghost var start := MergeState(data.blocks, data.roots, branches, changed);
      var i := 0;
      while i < |visits|
        invariant 0 <= i <= |visits|
        invariant MergeState(data.blocks, data.roots, branches, changed) == MergeRun(start, visits[..i], interchangeable)
      {
        assert visits[..i + 1][..i] == visits[..i];
        var branch := visits[i];
        if branch in data.blocks && MergeBranchInspect(data.blocks[branch]) {
          var recurse := BranchEntry(branch, interchangeable);
        }
        i := i + 1;
      }
      assert visits[..i] == visits;
    }

    /** `branchentry`: a branch interchangeable with an earlier recorded
        one is replaced by the earliest such everywhere in the graph and
        not recursed into; otherwise it is recorded and recursed into. A
        controlled property or a BSShaderProperty always takes the second
        path. */
    method BranchEntry(branch: Handle, interchangeable: (Handle, Handle) -> bool) returns (recurse: bool)
      requires branch in data.blocks
      modifies this, data
      ensures var m := MergeTarget(old(branches), branch, old(data.blocks[branch]), interchangeable);
        if m.Some? then
          data.blocks == ReplaceGlobal(old(data.blocks), branch, m) &&
          data.roots == ReplaceInList(old(data.roots), branch, m) &&
          changed && branches == old(branches) && !recurse
        else
          data.blocks == old(data.blocks) && data.roots == old(data.roots) &&
          changed == old(changed) && branches == old(branches) + [branch] && recurse
    {
      var b := data.blocks[branch];
      var i := 0;
      while i < |branches|
        invariant 0 <= i <= |branches|
        invariant data.blocks == old(data.blocks) && data.roots == old(data.roots)
        invariant branches == old(branches) && changed == old(changed)
        invariant NeverMerged(b) || forall k :: 0 <= k < i ==> branches[k] == branch || !interchangeable(branch, branches[k])
      {
        var other := branches[i];
        if branch != other && interchangeable(branch, other) {
          if IsNiProperty(b.kind) && b.controller.Some? {
            i := i + 1;
            continue;
          }
          if b.kind.BSShaderProperty? {
            i := i + 1;
            continue;
          }
          data.ReplaceGlobalNode(branch, Some(other));
          changed := true;
          return false;
        }
        i := i + 1;
      }
      branches := branches + [branch];
      recurse := true;
    }
  }

  /** `branchinspect` of the merge spell: only NiObjectNET and geometry
      data blocks are visited. */
  predicate MergeBranchInspect(b: Block)
  {
    IsNiObjectNET(b.kind) || IsNiTriBasedGeomData(b.kind)
  }

  /** What the merge spell keeps between visits. */
  datatype MergeState = MergeState(blocks: map<Handle, Block>, roots: seq<Option<Handle>>, branches: seq<Handle>, changed: bool)

  /** One visit of the merge spell: a block no longer in the graph, or
      one `branchinspect` turns down, is skipped; otherwise the branch is
      merged into its target or recorded. */
  function MergeVisit(st: MergeState, branch: Handle, interchangeable: (Handle, Handle) -> bool): MergeState
  {
    if branch !in st.blocks || !MergeBranchInspect(st.blocks[branch]) then st
    else
      match MergeTarget(st.branches, branch, st.blocks[branch], interchangeable)
      case Some(m) => MergeState(ReplaceGlobal(st.blocks, branch, Some(m)), ReplaceInList(st.roots, branch, Some(m)), st.branches, true)
      case None => st.(branches := st.branches + [branch])
  }

  /** The visits of the merge spell, in order. */
  function MergeRun(st: MergeState, visits: seq<Handle>, interchangeable: (Handle, Handle) -> bool): MergeState
  {
    if visits == [] then st
    else MergeVisit(MergeRun(st, visits[..|visits| - 1], interchangeable), visits[|visits| - 1], interchangeable)
  }

  /** A run of the merge spell keeps every block and its class, only
      appends to the recorded branches, and records only branches it
      visited and `branchinspect` accepts; when it reports no change the
      graph is as it was. */
  lemma {:induction false} MergeRunRecords(st: MergeState, visits: seq<Handle>, interchangeable: (Handle, Handle) -> bool)
    ensures var r := MergeRun(st, visits, interchangeable);
      r.blocks.Keys == st.blocks.Keys && (forall h :: h in st.blocks ==> r.blocks[h].kind == st.blocks[h].kind) &&
      |st.branches| <= |r.branches| && r.branches[..|st.branches|] == st.branches &&
      (forall k :: |st.branches| <= k < |r.branches| ==>
        r.branches[k] in visits && r.branches[k] in st.blocks && MergeBranchInspect(st.blocks[r.branches[k]])) &&
      (!r.changed ==> r.blocks == st.blocks && r.roots == st.roots)
  {
    if visits != [] {
      var p := visits[..|visits| - 1];
      MergeRunRecords(st, p, interchangeable);
      var prev := MergeRun(st, p, interchangeable);
      var r := MergeRun(st, visits, interchangeable);
      assert r == MergeVisit(prev, visits[|visits| - 1], interchangeable);
      forall k | |st.branches| <= k < |r.branches|
        ensures r.branches[k] in visits && r.branches[k] in st.blocks && MergeBranchInspect(st.blocks[r.branches[k]])
      {
        if k < |prev.branches| {
          assert r.branches[k] == prev.branches[k];
          assert prev.branches[k] in p;
        }
      }
    }
  }

  /** A merged branch is gone from the graph: no block links it any more,
      and every block that linked it links the survivor. */
  lemma MergedBranchUnlinked(blocks: map<Handle, Block>, branch: Handle, survivor: Handle)
    requires survivor != branch
    ensures forall h :: h in blocks ==>
      !LinksTo(ReplaceGlobal(blocks, branch, Some(survivor))[h], branch) &&
      (LinksTo(blocks[h], branch) ==> LinksTo(ReplaceGlobal(blocks, branch, Some(survivor))[h], survivor))
  {
    ReplaceGlobalComplete(blocks, branch, Some(survivor));
  }

  // --------------------------------------------------- opt_delunusedbones

  /** The blocks a reference list holds. */
  function RefSet(s: seq<Option<Handle>>): (r: set<Handle>)
    ensures forall x :: x in r <==> Some(x) in s
  {
    set k | 0 <= k < |s| && s[k].Some? :: s[k].value
  }

  /** The bones that `g` uses, when it is a skinned NiGeometry. */
  function BonesOf(blocks: map<Handle, Block>, g: Handle): set<Handle>
  {
    if g in blocks && IsNiGeometry(blocks[g].kind) && blocks[g].skinInstance.Some?
      && blocks[g].skinInstance.value in blocks
    then RefSet(blocks[blocks[g].skinInstance.value].bones)
    else {}
  }

  /** The bones used by the skinned geometries among `order`. */
  function UsedBones(blocks: map<Handle, Block>, order: seq<Handle>): set<Handle>
  {
    if order == [] then {}
    else UsedBones(blocks, order[..|order| - 1]) + BonesOf(blocks, order[|order| - 1])
  }

  /** A block counts as a used bone exactly when the skin instance of some
      geometry among `order` lists it. */
  lemma {:induction false} UsedBonesIff(blocks: map<Handle, Block>, order: seq<Handle>, x: Handle)
    ensures x in UsedBones(blocks, order) <==> exists k :: 0 <= k < |order| && x in BonesOf(blocks, order[k])
  {
    if order != [] {
      var p := order[..|order| - 1];
      UsedBonesIff(blocks, p, x);
      if x in BonesOf(blocks, order[|order| - 1]) {
        assert 0 <= |order| - 1 < |order|;
      }
      if exists k :: 0 <= k < |order| && x in BonesOf(blocks, order[k]) {
        var k :| 0 <= k < |order| && x in BonesOf(blocks, order[k]);
        if k < |p| {
          assert p[k] == order[k];
        }
      }
    }
  }

  class SpellDelUnusedBones {
    var changed: bool
    var usedBones: set<Handle>
    const data: NifData

    constructor (data: NifData)
      ensures this.data == data && !changed && usedBones == {}
    {
      this.data := data;
      changed := false;
      usedBones := {};
    }

    /** `datainspect`: only files with a skin instance. */
    function DataInspect(): (r: bool)
      reads data
      ensures r <==> exists h :: h in data.blocks && data.blocks[h].kind.NiSkinInstance?
    {
      data.HasBlockType((k: Kind) => k.NiSkinInstance?)
    }

    /** `dataentry`: collects the bones of every skinned geometry, visiting
        the blocks in the order `order` of the global iterator. */
    method DataEntry(order: seq<Handle>) returns (ok: bool)
      modifies this
      ensures usedBones == UsedBones(data.blocks, order)
      ensures changed == old(changed) && ok
    {
      usedBones := {};
      var i := 0;
      while i < |order|
        invariant 0 <= i <= |order|
        invariant usedBones == UsedBones(data.blocks, order[..i])
        invariant changed == old(changed)
      {
        assert order[..i + 1][..i] == order[..i];
        var g := order[i];
        if g in data.blocks && IsNiGeometry(data.blocks[g].kind) && data.blocks[g].skinInstance.Some? {
          var skin := data.blocks[g].skinInstance.value;
          if skin in data.blocks {
            usedBones := usedBones + RefSet(data.blocks[skin].bones);
          }
        }
        i := i + 1;
      }
      assert order[..i] == order;
      ok := true;
    }

    /** `branchentry`: a NiNode with no children that is not a used bone is
        removed from the graph and not recursed into. */
    method BranchEntry(branch: Handle) returns (recurse: bool)
      requires branch in data.blocks
      modifies this, data
      ensures usedBones == old(usedBones)
      ensures var b := old(data.blocks[branch]);
        if b.kind.NiNode? && b.children == [] && branch !in usedBones then
          data.blocks == ReplaceGlobal(old(data.blocks), branch, None) &&
          data.roots == ReplaceInList(old(data.roots), branch, None) &&
          changed && !recurse
        else
          data.blocks == old(data.blocks) && data.roots == old(data.roots) &&
          changed == old(changed) && recurse
    {
      var b := data.blocks[branch];
      if b.kind.NiNode? {
        if b.children == [] && branch !in usedBones {
          data.ReplaceGlobalNode(branch, None);
          changed := true;
          return false;
        }
      }
      recurse := true;
    }
  }

  /** A removed bone is referenced by no block afterwards, and every other
      reference, in particular every bone of a skin instance that is still
      used, is kept. */
  lemma RemovedBoneUnlinked(blocks: map<Handle, Block>, branch: Handle, x: Handle)
    requires x != branch
    ensures forall h :: h in blocks ==>
      !LinksTo(ReplaceGlobal(blocks, branch, None)[h], branch) &&
      (LinksTo(ReplaceGlobal(blocks, branch, None)[h], x) <==> LinksTo(blocks[h], x))
  {
    ReplaceGlobalComplete(blocks, branch, None);
  }
}
