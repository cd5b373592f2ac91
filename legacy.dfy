/** `testRoot` of the older niftools optimizer script: a fixed series of
    passes over the list of blocks reachable from the root. Each pass is a
    loop over that list that rewrites blocks in place; the list is
    `root.tree(unique = True)`, so it names every block once, and the
    traversal that builds it is a parameter (`order1` before the geometry
    pass, `order2` and `order3` rebuilt before the last two passes). */
module Legacy {
  import opened Common
  import opened Ascii
  import opened Geometry
  import opened Blocks
  import opened LegacyGeometry

  /** A block list as `root.tree(unique = True)` gives it: blocks of the
      graph, each once. */
  predicate Listed(order: seq<Handle>, blocks: map<Handle, Block>)
  {
    Distinct(order) && forall k :: 0 <= k < |order| ==> order[k] in blocks
  }

  lemma PrefixStep(order: seq<Handle>, i: nat, h: Handle)
    requires i < |order|
    ensures h in order[..i + 1] <==> h in order[..i] || h == order[i]
  {
    assert order[..i + 1] == order[..i] + [order[i]];
  }

  lemma FreshInPrefix(order: seq<Handle>, i: nat)
    requires i < |order| && Distinct(order)
    ensures order[i] !in order[..i]
  {
  }

  /** The inline list clean-up of the property and child passes: None and
      repeated entries dropped, first occurrences kept in order. */
  method UniqueNonEmpty(list: seq<Option<Handle>>) returns (r: seq<Option<Handle>>)
    ensures r == Cleaned(list)
  {
    r := [];
    var i := 0;
    while i < |list|
      invariant 0 <= i <= |list|
      invariant r == Cleaned(list[..i])
    {
      assert list[..i + 1][..i] == list[..i];
      if !(list[i].None? || list[i] in r) {
        r := r + [list[i]];
      }
      i := i + 1;
    }
    assert list[..i] == list;
  }

  // ------------------------------------------------- source texture paths

  predicate FixesPath(b: Block, exclude: seq<string>)
  {
    b.kind.NiSourceTexture? && "NiSourceTexture" !in exclude
  }

  /** Every listed NiSourceTexture gets its file name fixed, unless the
      name of its class is excluded. */
  function FixedPaths(blocks: map<Handle, Block>, order: seq<Handle>, exclude: seq<string>): (r: map<Handle, Block>)
    ensures r.Keys == blocks.Keys
    ensures forall h :: h in blocks ==> r[h] == blocks[h].(fileName := r[h].fileName)
  {
    map h | h in blocks ::
      if h in order && FixesPath(blocks[h], exclude) then blocks[h].(fileName := FixTexturePath(blocks[h].fileName))
      else blocks[h]
  }

  /** After the pass no listed source texture has a line break in its file
      name, unless the class is excluded, and each such name was fixed
      exactly once. */
  lemma FixedPathsClean(blocks: map<Handle, Block>, order: seq<Handle>, exclude: seq<string>, h: Handle)
    requires h in blocks && h in order && FixesPath(blocks[h], exclude)
    ensures '\n' !in FixedPaths(blocks, order, exclude)[h].fileName
    ensures '\r' !in FixedPaths(blocks, order, exclude)[h].fileName
    ensures FixedPaths(blocks, order, exclude)[h].fileName == FixTexturePath(blocks[h].fileName)
  {
  }

  method FixSourceTexturePaths(blocks: map<Handle, Block>, order: seq<Handle>, exclude: seq<string>)
    returns (r: map<Handle, Block>)
    requires Listed(order, blocks)
    ensures r == FixedPaths(blocks, order, exclude)
  {
    r := blocks;
    var i := 0;
    while i < |order|
      invariant 0 <= i <= |order|
      invariant r == FixedPaths(blocks, order[..i], exclude)
    {
      var h := order[i];
      FreshInPrefix(order, i);
      forall x ensures x in order[..i + 1] <==> x in order[..i] || x == h {
        PrefixStep(order, i, x);
      }
      var b := r[h];
      if b.kind.NiSourceTexture? && "NiSourceTexture" !in exclude {
        r := r[h := b.(fileName := FixTexturePath(b.fileName))];
      }
      i := i + 1;
    }
    assert order[..i] == order;
  }

  // ----------------------------------------------------- property merging

  type PropertyKey = (string, int)

  /** Material names whose strings take part in the hash. */
  const SPECIAL_NAMES: seq<string> := ["envmap2", "envmap", "skin", "hair", "dynalpha", "hidesecret", "lava"]

  /** The property hash takes strings into account only for a
      NiMaterialProperty whose name, lower-cased, is one of the special
      names. */
  predicate HashesStrings(p: Block)
  {
    p.kind.NiMaterialProperty? && Lower(p.name) in SPECIAL_NAMES
  }

  /** The merge key of a property: its class name and `getHash`, which
      ignores strings except for the special materials; the library hash
      is the parameter `getHash`, whose flag says whether strings are
      ignored. */
  function PropKey(blocks: map<Handle, Block>, prop: Handle, getHash: (Handle, bool) -> int): (r: PropertyKey)
    ensures r.0 == ClassName(At(blocks, prop).kind)
    ensures !At(blocks, prop).kind.NiMaterialProperty? ==> r.1 == getHash(prop, true)
    ensures At(blocks, prop).kind.NiMaterialProperty? && Lower(At(blocks, prop).name) in SPECIAL_NAMES ==>
      r.1 == getHash(prop, false)
    ensures At(blocks, prop).kind.NiMaterialProperty? && Lower(At(blocks, prop).name) !in SPECIAL_NAMES ==>
      r.1 == getHash(prop, true)
  {
    var p := At(blocks, prop);
    (ClassName(p.kind), getHash(prop, !HashesStrings(p)))
  }

  /** Properties that take part in merging: no controller, class not
      excluded. */
  predicate Mergeable(blocks: map<Handle, Block>, prop: Handle, exclude: seq<string>)
  {
    At(blocks, prop).controller.None? && ClassName(At(blocks, prop).kind) !in exclude
  }

  /** One turn of the merge loop: the property `e` and the key map become
      the entry written back and the new key map. The first property seen
      under a key is stored; a later one under the same key is replaced by
      the stored one. */
  function MergeEntry(
    blocks: map<Handle, Block>, exclude: seq<string>, getHash: (Handle, bool) -> int,
    pm: map<PropertyKey, Handle>, e: Option<Handle>): (Option<Handle>, map<PropertyKey, Handle>)
  {
    if e.None? || !Mergeable(blocks, e.value, exclude) then (e, pm)
    else
      var key := PropKey(blocks, e.value, getHash);
      if key in pm then (Some(pm[key]), pm) else (e, pm[key := e.value])
  }

  /** The merge loop over one property list, left to right. */
  function MergeList(
    blocks: map<Handle, Block>, exclude: seq<string>, getHash: (Handle, bool) -> int,
    pm: map<PropertyKey, Handle>, props: seq<Option<Handle>>): (r: (seq<Option<Handle>>, map<PropertyKey, Handle>))
    ensures |r.0| == |props|
  {
    if props == [] then ([], pm)
    else
      var prev := MergeList(blocks, exclude, getHash, pm, props[..|props| - 1]);
      var step := MergeEntry(blocks, exclude, getHash, prev.1, props[|props| - 1]);
      (prev.0 + [step.0], step.1)
  }

  /** Every stored property sits under its own key and takes part in
      merging. */
  predicate Keyed(blocks: map<Handle, Block>, exclude: seq<string>, getHash: (Handle, bool) -> int, pm: map<PropertyKey, Handle>)
  {
    forall key :: key in pm ==> PropKey(blocks, pm[key], getHash) == key && Mergeable(blocks, pm[key], exclude)
  }

  /** One turn of the merge loop keeps the map keyed and its stored
      entries, and writes back the property that was there or a stored
      property with the same key; an unmergeable property stays. */
  lemma MergeEntryFacts(
    blocks: map<Handle, Block>, exclude: seq<string>, getHash: (Handle, bool) -> int,
    pm: map<PropertyKey, Handle>, e: Option<Handle>)
    requires Keyed(blocks, exclude, getHash, pm)
    ensures var r := MergeEntry(blocks, exclude, getHash, pm, e);
      Keyed(blocks, exclude, getHash, r.1) &&
      (forall key :: key in pm ==> key in r.1 && r.1[key] == pm[key]) &&
      SameKeyEntry(blocks, exclude, getHash, e, r.0)
  {
  }

  /** `out` is `e`, or both are mergeable properties with the same key. */
  predicate SameKeyEntry(
    blocks: map<Handle, Block>, exclude: seq<string>, getHash: (Handle, bool) -> int,
    e: Option<Handle>, out: Option<Handle>)
  {
    out == e ||
    (e.Some? && out.Some? && Mergeable(blocks, e.value, exclude) && Mergeable(blocks, out.value, exclude) &&
     PropKey(blocks, out.value, getHash) == PropKey(blocks, e.value, getHash))
  }

  /** First seen wins: the merge loop never changes a stored entry and
      keeps the map keyed. */
  lemma {:induction false} MergeListKeyed(
    blocks: map<Handle, Block>, exclude: seq<string>, getHash: (Handle, bool) -> int,
    pm: map<PropertyKey, Handle>, props: seq<Option<Handle>>)
    requires Keyed(blocks, exclude, getHash, pm)
    ensures var r := MergeList(blocks, exclude, getHash, pm, props);
      Keyed(blocks, exclude, getHash, r.1) && forall key :: key in pm ==> key in r.1 && r.1[key] == pm[key]
  {
    if props != [] {
      var p := props[..|props| - 1];
      MergeListKeyed(blocks, exclude, getHash, pm, p);
      var prev := MergeList(blocks, exclude, getHash, pm, p);
      MergeEntryFacts(blocks, exclude, getHash, prev.1, props[|props| - 1]);
    }
  }

  /** Every entry the merge loop writes back is the property that was
      there or a stored property with the same key, so a property with a
      controller or of an excluded class is never replaced. */
  lemma {:induction false} MergeListSameKey(
    blocks: map<Handle, Block>, exclude: seq<string>, getHash: (Handle, bool) -> int,
    pm: map<PropertyKey, Handle>, props: seq<Option<Handle>>)
    requires Keyed(blocks, exclude, getHash, pm)
    ensures var r := MergeList(blocks, exclude, getHash, pm, props);
      forall k :: 0 <= k < |props| ==> SameKeyEntry(blocks, exclude, getHash, props[k], r.0[k])
  {
    if props != [] {
      var p := props[..|props| - 1];
      MergeListSameKey(blocks, exclude, getHash, pm, p);
      MergeListKeyed(blocks, exclude, getHash, pm, p);
      var prev := MergeList(blocks, exclude, getHash, pm, p);
      MergeEntryFacts(blocks, exclude, getHash, prev.1, props[|props| - 1]);
      var r := MergeList(blocks, exclude, getHash, pm, props);
      assert r.0 == prev.0 + [MergeEntry(blocks, exclude, getHash, prev.1, props[|props| - 1]).0];
      forall k | 0 <= k < |props|
        ensures SameKeyEntry(blocks, exclude, getHash, props[k], r.0[k])
      {
        if k < |p| {
          assert r.0[k] == prev.0[k] && props[k] == p[k];
        }
      }
    }
  }

  /** Every duplicate is merged into the first one seen: after the merge
      loop, each mergeable property of the list has its key stored, and its
      entry is the property stored under that key. */
  lemma {:induction false} MergeListMerges(
    blocks: map<Handle, Block>, exclude: seq<string>, getHash: (Handle, bool) -> int,
    pm: map<PropertyKey, Handle>, props: seq<Option<Handle>>)
    ensures var r := MergeList(blocks, exclude, getHash, pm, props);
      forall k :: 0 <= k < |props| && props[k].Some? && Mergeable(blocks, props[k].value, exclude) ==>
        PropKey(blocks, props[k].value, getHash) in r.1 &&
        r.0[k] == Some(r.1[PropKey(blocks, props[k].value, getHash)])
  {
    if props != [] {
      var p := props[..|props| - 1];
      MergeListMerges(blocks, exclude, getHash, pm, p);
      var prev := MergeList(blocks, exclude, getHash, pm, p);
      var r := MergeList(blocks, exclude, getHash, pm, props);
      assert r.1 == MergeEntry(blocks, exclude, getHash, prev.1, props[|props| - 1]).1;
      assert forall key :: key in prev.1 ==> key in r.1 && r.1[key] == prev.1[key];
      forall k | 0 <= k < |props| && props[k].Some? && Mergeable(blocks, props[k].value, exclude)
        ensures PropKey(blocks, props[k].value, getHash) in r.1
        ensures r.0[k] == Some(r.1[PropKey(blocks, props[k].value, getHash)])
      {
        if k < |p| {
          assert r.0[k] == prev.0[k] && props[k] == p[k];
        }
      }
    }
  }

  /** A property list is merged against the key map: every mergeable entry
      is the property stored under its own key. */
  predicate Merged(
    blocks: map<Handle, Block>, exclude: seq<string>, getHash: (Handle, bool) -> int,
    pm: map<PropertyKey, Handle>, props: seq<Option<Handle>>)
  {
    forall k :: 0 <= k < |props| && props[k].Some? && Mergeable(blocks, props[k].value, exclude) ==>
      PropKey(blocks, props[k].value, getHash) in pm && pm[PropKey(blocks, props[k].value, getHash)] == props[k].value
  }

  /** From a keyed map, the list the merge loop writes back is merged
      against the final key map. */
  lemma MergeListIsMerged(
    blocks: map<Handle, Block>, exclude: seq<string>, getHash: (Handle, bool) -> int,
    pm: map<PropertyKey, Handle>, props: seq<Option<Handle>>)
    requires Keyed(blocks, exclude, getHash, pm)
    ensures var r := MergeList(blocks, exclude, getHash, pm, props);
      Merged(blocks, exclude, getHash, r.1, r.0)
  {
    MergeListMerges(blocks, exclude, getHash, pm, props);
    MergeListSameKey(blocks, exclude, getHash, pm, props);
    MergeListKeyed(blocks, exclude, getHash, pm, props);
    var r := MergeList(blocks, exclude, getHash, pm, props);
    forall k | 0 <= k < |r.0| && r.0[k].Some? && Mergeable(blocks, r.0[k].value, exclude)
      ensures PropKey(blocks, r.0[k].value, getHash) in r.1 && r.1[PropKey(blocks, r.0[k].value, getHash)] == r.0[k].value
    {
      assert SameKeyEntry(blocks, exclude, getHash, props[k], r.0[k]);
    }
  }

  /** The merge loop written out: entry i of the list is overwritten when
      a stored property with the same key exists. */
  method MergeProperties(
    blocks: map<Handle, Block>, exclude: seq<string>, getHash: (Handle, bool) -> int,
    pm: map<PropertyKey, Handle>, props: seq<Option<Handle>>)
    returns (out: seq<Option<Handle>>, propertyMap: map<PropertyKey, Handle>)
    ensures (out, propertyMap) == MergeList(blocks, exclude, getHash, pm, props)
  {
    out := props;
    propertyMap := pm;
    var i := 0;
    while i < |out|
      invariant 0 <= i <= |out| == |props|
      invariant propertyMap == MergeList(blocks, exclude, getHash, pm, props[..i]).1
      invariant forall k :: 0 <= k < i ==> out[k] == MergeList(blocks, exclude, getHash, pm, props[..i]).0[k]
      invariant forall k :: i <= k < |out| ==> out[k] == props[k]
    {
      ghost var before := MergeList(blocks, exclude, getHash, pm, props[..i]);
      assert props[..i + 1][..i] == props[..i];
      ghost var after := MergeList(blocks, exclude, getHash, pm, props[..i + 1]);
      assert after.0 == before.0 + [MergeEntry(blocks, exclude, getHash, before.1, props[i]).0];
      var prop := out[i];
      if prop.Some? {
        var p := At(blocks, prop.value);
        if p.controller.None? {
          var key := (ClassName(p.kind), getHash(prop.value, !HashesStrings(p)));
          if ClassName(p.kind) !in exclude {
            if key in propertyMap {
              var newProp := propertyMap[key];
              if newProp != prop.value {
                out := out[i := Some(newProp)];
              }
            } else {
              propertyMap := propertyMap[key := prop.value];
            }
          }
        }
      }
      i := i + 1;
    }
    assert props[..i] == props;
    assert out == MergeList(blocks, exclude, getHash, pm, props).0;
  }

  /** The property pass on one block: an NiAVObject's list is cleaned, then
      merged against the key map. */
  function PropertyStep(
    blocks: map<Handle, Block>, exclude: seq<string>, getHash: (Handle, bool) -> int,
    pm: map<PropertyKey, Handle>, h: Handle): (r: (map<Handle, Block>, map<PropertyKey, Handle>))
    requires h in blocks
    ensures r.0.Keys == blocks.Keys
    ensures forall x :: x in blocks ==> r.0[x] == blocks[x].(properties := r.0[x].properties)
  {
    var b := blocks[h];
    if !IsNiAVObject(b.kind) then (blocks, pm)
    else
      var m := MergeList(blocks, exclude, getHash, pm, Cleaned(b.properties));
      (blocks[h := b.(properties := m.0)], m.1)
  }

  /** The property pass over the listed blocks, in order, with one key map
      for the whole file. */
  function PropertyPass(
    blocks: map<Handle, Block>, exclude: seq<string>, getHash: (Handle, bool) -> int,
    pm: map<PropertyKey, Handle>, order: seq<Handle>): (r: (map<Handle, Block>, map<PropertyKey, Handle>))
    requires forall k :: 0 <= k < |order| ==> order[k] in blocks
    ensures r.0.Keys == blocks.Keys
    ensures forall x :: x in blocks ==> r.0[x] == blocks[x].(properties := r.0[x].properties)
  {
    if order == [] then (blocks, pm)
    else
      var prev := PropertyPass(blocks, exclude, getHash, pm, order[..|order| - 1]);
      PropertyStep(prev.0, exclude, getHash, prev.1, order[|order| - 1])
  }

  /** Only property lists change, so keys and mergeability read the same
      before and after. */
  lemma SameButProperties(b0: map<Handle, Block>, b1: map<Handle, Block>, getHash: (Handle, bool) -> int, x: Handle)
    requires b1.Keys == b0.Keys
    requires forall y :: y in b0 ==> b1[y] == b0[y].(properties := b1[y].properties)
    ensures At(b1, x).kind == At(b0, x).kind && At(b1, x).controller == At(b0, x).controller
    ensures PropKey(b1, x, getHash) == PropKey(b0, x, getHash)
  {
  }

  /** The key map stays keyed through the whole pass and stored entries
      are never replaced: the first property seen under a key stays the
      one every later duplicate is merged into. */
  lemma {:induction false} PropertyPassKeyed(
    blocks: map<Handle, Block>, exclude: seq<string>, getHash: (Handle, bool) -> int,
    pm: map<PropertyKey, Handle>, order: seq<Handle>)
    requires forall k :: 0 <= k < |order| ==> order[k] in blocks
    requires Keyed(blocks, exclude, getHash, pm)
    ensures var r := PropertyPass(blocks, exclude, getHash, pm, order);
      Keyed(blocks, exclude, getHash, r.1) && forall key :: key in pm ==> key in r.1 && r.1[key] == pm[key]
  {
    if order != [] {
      var p := order[..|order| - 1];
      PropertyPassKeyed(blocks, exclude, getHash, pm, p);
      var prev := PropertyPass(blocks, exclude, getHash, pm, p);
      forall x ensures PropKey(prev.0, x, getHash) == PropKey(blocks, x, getHash) &&
        (Mergeable(prev.0, x, exclude) <==> Mergeable(blocks, x, exclude))
      {
        SameButProperties(blocks, prev.0, getHash, x);
      }
      assert Keyed(prev.0, exclude, getHash, prev.1);
      var h := order[|order| - 1];
      var b := prev.0[h];
      if IsNiAVObject(b.kind) {
        MergeListKeyed(prev.0, exclude, getHash, prev.1, Cleaned(b.properties));
      }
    }
  }

  /** Keys, mergeability and hence keyed maps and merged lists read the
      same in two block maps that differ only in property lists. */
  lemma SameButPropertiesMerged(
    b0: map<Handle, Block>, b1: map<Handle, Block>, exclude: seq<string>, getHash: (Handle, bool) -> int,
    pm: map<PropertyKey, Handle>, props: seq<Option<Handle>>)
    requires b1.Keys == b0.Keys
    requires forall y :: y in b0 ==> b1[y] == b0[y].(properties := b1[y].properties)
    ensures Keyed(b0, exclude, getHash, pm) ==> Keyed(b1, exclude, getHash, pm)
    ensures Merged(b1, exclude, getHash, pm, props) ==> Merged(b0, exclude, getHash, pm, props)
  {
    forall x ensures PropKey(b1, x, getHash) == PropKey(b0, x, getHash) &&
      (Mergeable(b1, x, exclude) <==> Mergeable(b0, x, exclude))
    {
      SameButProperties(b0, b1, getHash, x);
    }
  }

  /** A merged list stays merged when the key map only gains keys. */
  lemma MergedGrows(
    blocks: map<Handle, Block>, exclude: seq<string>, getHash: (Handle, bool) -> int,
    pm: map<PropertyKey, Handle>, pm': map<PropertyKey, Handle>, props: seq<Option<Handle>>)
    requires Merged(blocks, exclude, getHash, pm, props)
    requires forall key :: key in pm ==> key in pm' && pm'[key] == pm[key]
    ensures Merged(blocks, exclude, getHash, pm', props)
  {
  }

  /** One property step merges the list of the block it processes and
      only adds keys to the key map. */
  lemma PropertyStepMergesOwn(
    blocks: map<Handle, Block>, exclude: seq<string>, getHash: (Handle, bool) -> int,
    cur: map<Handle, Block>, pm: map<PropertyKey, Handle>, h: Handle)
    requires h in blocks && cur.Keys == blocks.Keys
    requires forall y :: y in blocks ==> cur[y] == blocks[y].(properties := cur[y].properties)
    requires Keyed(blocks, exclude, getHash, pm)
    ensures var r := PropertyStep(cur, exclude, getHash, pm, h);
      (forall key :: key in pm ==> key in r.1 && r.1[key] == pm[key]) &&
      (IsNiAVObject(blocks[h].kind) ==> Merged(blocks, exclude, getHash, r.1, r.0[h].properties))
  {
    var b := cur[h];
    if IsNiAVObject(b.kind) {
      var props := Cleaned(b.properties);
      SameButPropertiesMerged(blocks, cur, exclude, getHash, pm, props);
      MergeListIsMerged(cur, exclude, getHash, pm, props);
      MergeListKeyed(cur, exclude, getHash, pm, props);
      var m := MergeList(cur, exclude, getHash, pm, props);
      SameButPropertiesMerged(blocks, cur, exclude, getHash, m.1, m.0);
    }
  }

  /** One property step keeps the lists of earlier blocks merged and
      merges the list of the block it processes. */
  lemma PropertyStepMerges(
    blocks: map<Handle, Block>, exclude: seq<string>, getHash: (Handle, bool) -> int,
    cur: map<Handle, Block>, pm: map<PropertyKey, Handle>, order: seq<Handle>)
    requires order != [] && forall k :: 0 <= k < |order| ==> order[k] in blocks
    requires cur.Keys == blocks.Keys
    requires forall y :: y in blocks ==> cur[y] == blocks[y].(properties := cur[y].properties)
    requires Keyed(blocks, exclude, getHash, pm)
    requires forall i :: 0 <= i < |order| - 1 && IsNiAVObject(blocks[order[i]].kind) ==>
      Merged(blocks, exclude, getHash, pm, cur[order[i]].properties)
    ensures var r := PropertyStep(cur, exclude, getHash, pm, order[|order| - 1]);
      forall i :: 0 <= i < |order| && IsNiAVObject(blocks[order[i]].kind) ==>
        Merged(blocks, exclude, getHash, r.1, r.0[order[i]].properties)
  {
    var h := order[|order| - 1];
    var r := PropertyStep(cur, exclude, getHash, pm, h);
    PropertyStepMergesOwn(blocks, exclude, getHash, cur, pm, h);
    forall i | 0 <= i < |order| && IsNiAVObject(blocks[order[i]].kind)
      ensures Merged(blocks, exclude, getHash, r.1, r.0[order[i]].properties)
    {
      var x := order[i];
      if x != h {
        assert i < |order| - 1 && r.0[x] == cur[x];
        MergedGrows(blocks, exclude, getHash, pm, r.1, cur[x].properties);
      }
    }
  }

  /** Every NiAVObject's property list is merged against the final key
      map: each surviving duplicate points at the first property seen under
      its key, whichever block that property came from. */
  lemma {:induction false} PropertyPassMerges(
    blocks: map<Handle, Block>, exclude: seq<string>, getHash: (Handle, bool) -> int,
    pm: map<PropertyKey, Handle>, order: seq<Handle>)
    requires forall k :: 0 <= k < |order| ==> order[k] in blocks
    requires Keyed(blocks, exclude, getHash, pm)
    ensures var r := PropertyPass(blocks, exclude, getHash, pm, order);
      forall i :: 0 <= i < |order| && IsNiAVObject(blocks[order[i]].kind) ==>
        Merged(blocks, exclude, getHash, r.1, r.0[order[i]].properties)
  {
    if order != [] {
      var p := order[..|order| - 1];
      PropertyPassMerges(blocks, exclude, getHash, pm, p);
      PropertyPassKeyed(blocks, exclude, getHash, pm, p);
      var prev := PropertyPass(blocks, exclude, getHash, pm, p);
      assert forall i :: 0 <= i < |order| - 1 ==> order[i] == p[i];
      PropertyStepMerges(blocks, exclude, getHash, prev.0, prev.1, order);
    }
  }

  method MergeDuplicateProperties(
    blocks: map<Handle, Block>, order: seq<Handle>, exclude: seq<string>, getHash: (Handle, bool) -> int)
    returns (r: map<Handle, Block>, propertyMap: map<PropertyKey, Handle>)
    requires Listed(order, blocks)
    ensures (r, propertyMap) == PropertyPass(blocks, exclude, getHash, map[], order)
  {
    r := blocks;
    propertyMap := map[];
    var i := 0;
    while i < |order|
      invariant 0 <= i <= |order|
      invariant (r, propertyMap) == PropertyPass(blocks, exclude, getHash, map[], order[..i])
    {
      assert order[..i + 1][..i] == order[..i];
      var h := order[i];
      var b := r[h];
      if IsNiAVObject(b.kind) {
        var props := UniqueNonEmpty(b.properties);
        var merged, pm := MergeProperties(r, exclude, getHash, propertyMap, props);
        r := r[h := b.(properties := merged)];
        propertyMap := pm;
      }
      i := i + 1;
    }
    assert order[..i] == order;
  }

  // --------------------------------------------------- controller targets

  /** A listed controller whose target's key (strings ignored) is in the
      key map is pointed at the stored property. */
  predicate Retargets(blocks: map<Handle, Block>, h: Handle, getHash: (Handle, bool) -> int, pm: map<PropertyKey, Handle>)
    requires h in blocks
  {
    var b := blocks[h];
    b.kind.NiTimeController? && b.target.Some? && TargetKey(blocks, b.target.value, getHash) in pm
  }

  function TargetKey(blocks: map<Handle, Block>, t: Handle, getHash: (Handle, bool) -> int): PropertyKey
  {
    (ClassName(At(blocks, t).kind), getHash(t, true))
  }

  function Retargeted(
    blocks: map<Handle, Block>, order: seq<Handle>, getHash: (Handle, bool) -> int, pm: map<PropertyKey, Handle>): (r: map<Handle, Block>)
    ensures r.Keys == blocks.Keys
    ensures forall h :: h in blocks ==> r[h] == blocks[h].(target := r[h].target)
  {
    map h | h in blocks ::
      if h in order && Retargets(blocks, h, getHash, pm)
      then blocks[h].(target := Some(pm[TargetKey(blocks, blocks[h].target.value, getHash)]))
      else blocks[h]
  }

  /** A retargeted controller points at a property stored under its old
      target's key; all other controllers keep their target. */
  lemma RetargetedToStored(
    blocks: map<Handle, Block>, order: seq<Handle>, getHash: (Handle, bool) -> int, pm: map<PropertyKey, Handle>, h: Handle)
    requires h in blocks
    ensures var t := Retargeted(blocks, order, getHash, pm)[h].target;
      if h in order && Retargets(blocks, h, getHash, pm) then
        t.Some? && t.value in pm.Values && pm[TargetKey(blocks, blocks[h].target.value, getHash)] == t.value
      else t == blocks[h].target
  {
  }

  /** The controller `h` after its turn of the retargeting loop. */
  function RetargetedBlock(blocks: map<Handle, Block>, h: Handle, getHash: (Handle, bool) -> int, pm: map<PropertyKey, Handle>): Block
    requires h in blocks
  {
    if Retargets(blocks, h, getHash, pm) then blocks[h].(target := Some(pm[TargetKey(blocks, blocks[h].target.value, getHash)]))
    else blocks[h]
  }

  /** One turn of the retargeting loop: the controller visited and the kind
      of every block are still as they were, and retargeting it extends the
      retargeted prefix by one. */
  lemma RetargetedStep(
    blocks: map<Handle, Block>, order: seq<Handle>, i: nat, getHash: (Handle, bool) -> int, pm: map<PropertyKey, Handle>,
    before: map<Handle, Block>)
    requires i < |order| && Listed(order, blocks)
    requires before == Retargeted(blocks, order[..i], getHash, pm)
    ensures before[order[i]] == blocks[order[i]]
    ensures forall x :: At(before, x).kind == At(blocks, x).kind
    ensures before[order[i] := RetargetedBlock(blocks, order[i], getHash, pm)] == Retargeted(blocks, order[..i + 1], getHash, pm)
  {
    FreshInPrefix(order, i);
    forall x ensures x in order[..i + 1] <==> x in order[..i] || x == order[i] {
      PrefixStep(order, i, x);
    }
  }

  /** The body of the retargeting loop for the block `h` of the current
      map `current`, which still agrees with `blocks` on `h` and on every
      class. */
  method RetargetController(
    blocks: map<Handle, Block>, current: map<Handle, Block>, h: Handle, getHash: (Handle, bool) -> int,
    propertyMap: map<PropertyKey, Handle>) returns (fixed: Block)
    requires h in blocks && h in current && current[h] == blocks[h]
    requires forall x :: At(current, x).kind == At(blocks, x).kind
    ensures fixed == RetargetedBlock(blocks, h, getHash, propertyMap)
  {
    var b := current[h];
    fixed := b;
    if b.kind.NiTimeController? && b.target.Some? {
      var prop := b.target.value;
      var key := (ClassName(At(current, prop).kind), getHash(prop, true));
      if key in propertyMap {
        fixed := b.(target := Some(propertyMap[key]));
      }
    }
  }

  method FixControllerTargets(
    blocks: map<Handle, Block>, order: seq<Handle>, getHash: (Handle, bool) -> int, propertyMap: map<PropertyKey, Handle>)
    returns (r: map<Handle, Block>)
    requires Listed(order, blocks)
    ensures r == Retargeted(blocks, order, getHash, propertyMap)
  {
    r := blocks;
    var i := 0;
    while i < |order|
      invariant 0 <= i <= |order|
      invariant r == Retargeted(blocks, order[..i], getHash, propertyMap)
    {
      var h := order[i];
      RetargetedStep(blocks, order, i, getHash, propertyMap, r);
      var fixed := RetargetController(blocks, r, h, getHash, propertyMap);
      r := r[h := fixed];
      assert r == Retargeted(blocks, order[..i + 1], getHash, propertyMap);
      i := i + 1;
    }
    assert order[..i] == order;
  }

  // ------------------------------------------------------ children clean-up

  /** `opt_shapes`: false as soon as the list holds a NiPSysMeshEmitter. */
  method ShapesOptimizable(blocks: map<Handle, Block>, order: seq<Handle>) returns (optShapes: bool)
    requires Listed(order, blocks)
    ensures optShapes <==> forall k :: 0 <= k < |order| ==> !blocks[order[k]].kind.NiPSysMeshEmitter?
  {
    optShapes := true;
    var i := 0;
    while i < |order|
      invariant 0 <= i <= |order|
      invariant optShapes <==> forall k :: 0 <= k < i ==> !blocks[order[k]].kind.NiPSysMeshEmitter?
    {
      if blocks[order[i]].kind.NiPSysMeshEmitter? {
        optShapes := false;
      }
      i := i + 1;
    }
  }

  function DedupedChildren(blocks: map<Handle, Block>, order: seq<Handle>): (r: map<Handle, Block>)
    ensures r.Keys == blocks.Keys
    ensures forall h :: h in blocks ==> r[h] == blocks[h].(children := r[h].children)
  {
    map h | h in blocks ::
      if h in order && blocks[h].kind.NiNode? then blocks[h].(children := Cleaned(blocks[h].children))
      else blocks[h]
  }

  /** After the pass every listed NiNode has each child once, no None
      child, and the same set of children as before. */
  lemma DedupedChildrenFacts(blocks: map<Handle, Block>, order: seq<Handle>, h: Handle)
    requires h in blocks && h in order && blocks[h].kind.NiNode?
    ensures var c := DedupedChildren(blocks, order)[h].children;
      Distinct(c) && NoneFree(c) && forall x :: x in c <==> x.Some? && x in blocks[h].children
  {
    CleanedDistinct(blocks[h].children);
    CleanedMembers(blocks[h].children);
  }

  method DedupChildren(blocks: map<Handle, Block>, order: seq<Handle>) returns (r: map<Handle, Block>)
    requires Listed(order, blocks)
    ensures r == DedupedChildren(blocks, order)
  {
    r := blocks;
    var i := 0;
    while i < |order|
      invariant 0 <= i <= |order|
      invariant r == DedupedChildren(blocks, order[..i])
    {
      var h := order[i];
      FreshInPrefix(order, i);
      forall x ensures x in order[..i + 1] <==> x in order[..i] || x == h {
        PrefixStep(order, i, x);
      }
      var b := r[h];
      if b.kind.NiNode? {
        var kids := UniqueNonEmpty(b.children);
        r := r[h := b.(children := kids)];
      }
      i := i + 1;
    }
    assert order[..i] == order;
  }

  // --------------------------------------------------- the geometry pass

  predicate OptimizesShape(b: Block, exclude: seq<string>)
  {
    (b.kind.NiTriStrips? && "NiTriStrips" !in exclude) || (b.kind.NiTriShape? && "NiTriShape" !in exclude)
  }

  /** The classes whose references the referrer loop knows how to repoint. */
  predicate KnownReferrer(k: Kind)
  {
    k.NiNode? || k.NiTimeController? || k.NiDefaultAVObjectPalette? || k.BhkCollisionObject?
  }

  /** Every slot of the list that holds `block` now holds `newblock`. */
  function Slots(s: seq<Option<Handle>>, block: Handle, newblock: Option<Handle>): (r: seq<Option<Handle>>)
    ensures |r| == |s|
  {
    seq(|s|, k requires 0 <= k < |s| => if s[k] == Some(block) then newblock else s[k])
  }

  method RepointSlots(s: seq<Option<Handle>>, block: Handle, newblock: Option<Handle>) returns (r: seq<Option<Handle>>)
    ensures r == Slots(s, block, newblock)
  {
    r := s;
    var i := 0;
    while i < |r|
      invariant 0 <= i <= |r| == |s|
      invariant forall k :: 0 <= k < i ==> r[k] == Slots(s, block, newblock)[k]
      invariant forall k :: i <= k < |r| ==> r[k] == s[k]
    {
      if r[i] == Some(block) {
        r := r[i := newblock];
      }
      i := i + 1;
    }
  }

  /** A referrer of a known class with its reference to `block` repointed:
      the children of a node, the entries of a palette, the target of a
      controller or collision object. */
  function Repointed(b: Block, block: Handle, newblock: Option<Handle>): Block
  {
    if b.kind.NiNode? then b.(children := Slots(b.children, block, newblock))
    else if b.kind.NiDefaultAVObjectPalette? then b.(avObjects := Slots(b.avObjects, block, newblock))
    else if (b.kind.NiTimeController? || b.kind.BhkCollisionObject?) && b.target == Some(block) then b.(target := newblock)
    else b
  }

  /** The block links `block` but is of a class the loop does not know. */
  predicate Unrepointable(b: Block, block: Handle)
  {
    Blocks.LinksTo(b, block) && !KnownReferrer(b.kind)
  }

  /** Some listed block cannot be repointed: the loop's error condition,
      folded over the list. */
  predicate AnyUnrepointable(blocks: map<Handle, Block>, order: seq<Handle>, block: Handle)
  {
    if order == [] then false
    else
      AnyUnrepointable(blocks, order[..|order| - 1], block) ||
      (order[|order| - 1] in blocks && Unrepointable(blocks[order[|order| - 1]], block))
  }

  /** The same condition stated directly. */
  predicate UnknownReferrer(blocks: map<Handle, Block>, order: seq<Handle>, block: Handle)
  {
    exists k :: 0 <= k < |order| && order[k] in blocks && Unrepointable(blocks[order[k]], block)
  }

  lemma {:induction false} AnyUnrepointableIff(blocks: map<Handle, Block>, order: seq<Handle>, block: Handle)
    ensures AnyUnrepointable(blocks, order, block) <==> UnknownReferrer(blocks, order, block)
  {
    if order != [] {
      var p := order[..|order| - 1];
      AnyUnrepointableIff(blocks, p, block);
      if UnknownReferrer(blocks, p, block) {
        var k :| 0 <= k < |p| && p[k] in blocks && Unrepointable(blocks[p[k]], block);
        assert order[k] == p[k];
      }
      if UnknownReferrer(blocks, order, block) && !(order[|order| - 1] in blocks && Unrepointable(blocks[order[|order| - 1]], block)) {
        var k :| 0 <= k < |order| && order[k] in blocks && Unrepointable(blocks[order[k]], block);
        assert p[k] == order[k];
      }
    }
  }

  function RepointedAll(blocks: map<Handle, Block>, order: seq<Handle>, block: Handle, newblock: Option<Handle>): (r: map<Handle, Block>)
    ensures r.Keys == blocks.Keys
    ensures forall h :: h in blocks ==> r[h].kind == blocks[h].kind && r[h].shape == blocks[h].shape && r[h].data == blocks[h].data
  {
    map h | h in blocks :: if h in order && Blocks.LinksTo(blocks[h], block) then Repointed(blocks[h], block, newblock) else blocks[h]
  }

  /** The referrer loop: RuntimeError when some listed referrer is of an
      unknown class, otherwise every listed referrer repointed. */
  function ReplacedReferrers(blocks: map<Handle, Block>, order: seq<Handle>, block: Handle, newblock: Option<Handle>): Result<map<Handle, Block>, Raised>
  {
    if AnyUnrepointable(blocks, order, block) then Err(RuntimeError)
    else Ok(RepointedAll(blocks, order, block, newblock))
  }

  lemma SlotsCleared(s: seq<Option<Handle>>, block: Handle, newblock: Option<Handle>)
    requires newblock != Some(block)
    ensures Some(block) !in Slots(s, block, newblock)
  {
    var r := Slots(s, block, newblock);
    forall k | 0 <= k < |r|
      ensures r[k] != Some(block)
    {
    }
  }

  /** After a successful replacement no reference slot the loop knows of
      in a listed block holds the old block any more, every such slot that
      held it holds the new one, and blocks that did not link it are
      unchanged. */
  lemma ReplacedReferrersFacts(blocks: map<Handle, Block>, order: seq<Handle>, block: Handle, newblock: Option<Handle>, h: Handle)
    requires newblock != Some(block)
    requires ReplacedReferrers(blocks, order, block, newblock).Ok? && h in blocks && h in order
    ensures var b, r := blocks[h], ReplacedReferrers(blocks, order, block, newblock).value[h];
      if Blocks.LinksTo(b, block) then
        KnownReferrer(b.kind) && r.kind == b.kind &&
        (b.kind.NiNode? ==> Some(block) !in r.children && r.children == Slots(b.children, block, newblock)) &&
        (b.kind.NiDefaultAVObjectPalette? ==> Some(block) !in r.avObjects && r.avObjects == Slots(b.avObjects, block, newblock)) &&
        ((b.kind.NiTimeController? || b.kind.BhkCollisionObject?) ==>
          r.target != Some(block) && r.target == (if b.target == Some(block) then newblock else b.target))
      else r == b
  {
    var b := blocks[h];
    SlotsCleared(b.children, block, newblock);
    SlotsCleared(b.avObjects, block, newblock);
    AnyUnrepointableIff(blocks, order, block);
    if Blocks.LinksTo(b, block) {
      var k := IndexOf(order, h);
      assert !Unrepointable(blocks[order[k]], block);
    }
  }

  /** The referrer loop's repointing, folded over the list. */
  function RepointedFold(blocks: map<Handle, Block>, order: seq<Handle>, block: Handle, newblock: Option<Handle>): map<Handle, Block>
  {
    if order == [] then blocks
    else
      var prev := RepointedFold(blocks, order[..|order| - 1], block, newblock);
      var h := order[|order| - 1];
      if h in blocks && Blocks.LinksTo(blocks[h], block) then prev[h := Repointed(blocks[h], block, newblock)] else prev
  }

  lemma {:induction false} RepointedFoldAt(blocks: map<Handle, Block>, order: seq<Handle>, block: Handle, newblock: Option<Handle>, x: Handle)
    requires x in blocks
    ensures x in RepointedFold(blocks, order, block, newblock)
    ensures RepointedFold(blocks, order, block, newblock)[x]
         == if x in order && Blocks.LinksTo(blocks[x], block) then Repointed(blocks[x], block, newblock) else blocks[x]
  {
    if order != [] {
      var p := order[..|order| - 1];
      RepointedFoldAt(blocks, p, block, newblock, x);
      assert order == p + [order[|order| - 1]];
      assert x in order <==> x in p || x == order[|order| - 1];
    }
  }

  lemma {:induction false} RepointedFoldKeys(blocks: map<Handle, Block>, order: seq<Handle>, block: Handle, newblock: Option<Handle>)
    ensures RepointedFold(blocks, order, block, newblock).Keys == blocks.Keys
  {
    if order != [] {
      RepointedFoldKeys(blocks, order[..|order| - 1], block, newblock);
    }
  }

  lemma RepointedFoldIsAll(blocks: map<Handle, Block>, order: seq<Handle>, block: Handle, newblock: Option<Handle>)
    ensures RepointedFold(blocks, order, block, newblock) == RepointedAll(blocks, order, block, newblock)
  {
    var folded := RepointedFold(blocks, order, block, newblock);
    var all := RepointedAll(blocks, order, block, newblock);
    RepointedFoldKeys(blocks, order, block, newblock);
    forall x | x in blocks ensures folded[x] == all[x] {
      RepointedFoldAt(blocks, order, block, newblock, x);
    }
  }

  /** A block the fold has not reached yet is as it was. */
  lemma {:induction false} RepointedFoldUntouched(
    blocks: map<Handle, Block>, order: seq<Handle>, block: Handle, newblock: Option<Handle>, h: Handle)
    requires h !in order && h in blocks
    ensures h in RepointedFold(blocks, order, block, newblock) && RepointedFold(blocks, order, block, newblock)[h] == blocks[h]
  {
    if order != [] {
      RepointedFoldUntouched(blocks, order[..|order| - 1], block, newblock, h);
    }
  }

  lemma AnyUnrepointableSnoc(blocks: map<Handle, Block>, order: seq<Handle>, i: nat, block: Handle)
    requires i < |order| && order[i] in blocks
    ensures AnyUnrepointable(blocks, order[..i + 1], block) == (AnyUnrepointable(blocks, order[..i], block) || Unrepointable(blocks[order[i]], block))
  {
    assert order[..i + 1][..i] == order[..i];
  }

  lemma {:induction false} AnyUnrepointableStays(blocks: map<Handle, Block>, order: seq<Handle>, i: nat, block: Handle)
    requires i <= |order| && AnyUnrepointable(blocks, order[..i], block)
    ensures AnyUnrepointable(blocks, order, block)
    decreases |order| - i
  {
    if i < |order| {
      assert order[..i + 1][..i] == order[..i];
      AnyUnrepointableStays(blocks, order, i + 1, block);
    } else {
      assert order[..i] == order;
    }
  }

  /** The body of the referrer loop for one block that links `block`. */
  method RepointReferrer(other: Block, block: Handle, newblock: Option<Handle>) returns (b: Block, known: bool)
    ensures known == KnownReferrer(other.kind)
    ensures known ==> b == Repointed(other, block, newblock)
  {
    b := other;
    known := true;
    if other.kind.NiNode? {
      var kids := RepointSlots(other.children, block, newblock);
      b := other.(children := kids);
    } else if other.kind.NiTimeController? || other.kind.BhkCollisionObject? {
      if other.target == Some(block) {
        b := other.(target := newblock);
      }
    } else if other.kind.NiDefaultAVObjectPalette? {
      var objs := RepointSlots(other.avObjects, block, newblock);
      b := other.(avObjects := objs);
    } else {
      known := false;
    }
  }

  method ReplaceReferrers(blocks: map<Handle, Block>, order: seq<Handle>, block: Handle, newblock: Option<Handle>)
    returns (r: Result<map<Handle, Block>, Raised>)
    requires Listed(order, blocks)
    ensures r == ReplacedReferrers(blocks, order, block, newblock)
  {
    var out := blocks;
    var i := 0;
    while i < |order|
      invariant 0 <= i <= |order|
      invariant out == RepointedFold(blocks, order[..i], block, newblock)
      invariant !AnyUnrepointable(blocks, order[..i], block)
    {
      var h := order[i];
      assert order[..i + 1][..i] == order[..i];
      FreshInPrefix(order, i);
      RepointedFoldUntouched(blocks, order[..i], block, newblock, h);
      var other := out[h];
      if Blocks.LinksTo(other, block) {
        var repointed, known := RepointReferrer(other, block, newblock);
        if !known {
          AnyUnrepointableStays(blocks, order, i + 1, block);
          return Err(RuntimeError);
        }
        out := out[h := repointed];
      }
      i := i + 1;
    }
    assert order[..i] == order;
    RepointedFoldIsAll(blocks, order, block, newblock);
    r := Ok(out);
  }

  lemma WellFormedUpdate(blocks: map<Handle, Block>, d: Handle, s: ShapeFields)
    requires WellFormed(blocks) && d in blocks && WellSized(s.arrays)
    ensures WellFormed(blocks[d := blocks[d].(shape := s)])
  {
  }

  /** The end of a turn of the geometry loop: the shape is recorded as
      optimized and, when the optimizer returned another block (or None),
      the listed referrers are repointed to that. */
  function RecordAndReplace(
    blocks: map<Handle, Block>, optimized: seq<Option<Handle>>, order: seq<Handle>, h: Handle, newblock: Option<Handle>)
    : (r: Result<(map<Handle, Block>, seq<Option<Handle>>), Raised>)
    requires WellFormed(blocks)
    ensures r.Ok? ==> WellFormed(r.value.0) && r.value.0.Keys == blocks.Keys
    ensures r.Ok? ==> forall x :: x in blocks ==> r.value.0[x].kind == blocks[x].kind
    ensures r.Ok? ==> Some(h) in r.value.1 && forall x :: x in optimized ==> x in r.value.1
    ensures r.Err? ==> r.error == RuntimeError
  {
    if newblock == Some(h) then Ok((blocks, optimized + [Some(h)]))
    else
      match ReplacedReferrers(blocks, order, h, newblock)
      case Err(e) => Err(e)
      case Ok(m) =>
        WellFormedKept(blocks, m);
        Ok((m, optimized + [Some(h), newblock]))
  }

  /** One turn of the geometry loop on shape `h`. The data is optimized;
      when the result is not the shape itself (None for a shape of fewer
      than three vertices, or the block the stripifier returns, the
      parameter `restrip`), every listed referrer is repointed to it.
      Missing data, or data that is not geometry data, raises
      AttributeError; so does data of the other class than the shape, but
      only once the vertex count has been found to be at least three. */
  function GeomStep(
    blocks: map<Handle, Block>, optimized: seq<Option<Handle>>, order: seq<Handle>, exclude: seq<string>,
    hash: VertexKey -> int, restrip: Handle -> Handle, h: Handle): (r: Result<(map<Handle, Block>, seq<Option<Handle>>), Raised>)
    requires WellFormed(blocks) && h in blocks
    ensures r.Ok? ==> WellFormed(r.value.0) && r.value.0.Keys == blocks.Keys
    ensures r.Ok? ==> forall x :: x in blocks ==> r.value.0[x].kind == blocks[x].kind
    ensures r.Ok? ==> forall x :: x in optimized ==> x in r.value.1
    ensures r.Ok? && OptimizesShape(blocks[h], exclude) ==> Some(h) in r.value.1
    ensures r == Err(AttributeError) <==>
      var b := blocks[h];
      OptimizesShape(b, exclude) && Some(h) !in optimized &&
      (b.data.None? || b.data.value !in blocks || !IsNiTriBasedGeomData(blocks[b.data.value].kind) ||
       (blocks[b.data.value].shape.arrays.numVertices >= 3 && b.kind.NiTriStrips? != blocks[b.data.value].kind.NiTriStripsData?))
    ensures var b := blocks[h];
      OptimizesShape(b, exclude) && Some(h) !in optimized && b.data.Some? && b.data.value in blocks &&
      IsNiTriBasedGeomData(blocks[b.data.value].kind) && blocks[b.data.value].shape.arrays.numVertices < 3 ==>
        r == RecordAndReplace(blocks, optimized, order, h, None)
  {
    var b := blocks[h];
    if !OptimizesShape(b, exclude) || Some(h) in optimized then Ok((blocks, optimized))
    else if b.data.None? || b.data.value !in blocks || !IsNiTriBasedGeomData(blocks[b.data.value].kind) then Err(AttributeError)
    else
      var d := b.data.value;
      match TriBasedGeomOptimized(blocks[d].shape, b.kind.NiTriStrips?, blocks[d].kind.NiTriStripsData?, hash)
      case Err(e) => Err(e)
      case Ok(res) =>
        if res.Some? then
          WellFormedUpdate(blocks, d, res.value);
          RecordAndReplace(blocks[d := blocks[d].(shape := res.value)], optimized, order, h, Some(restrip(h)))
        else
          RecordAndReplace(blocks, optimized, order, h, None)
  }

  /** The geometry loop over the blocks `visit`, starting from an empty
      list of optimized geometries. */
  function GeomPass(
    blocks: map<Handle, Block>, order: seq<Handle>, exclude: seq<string>,
    hash: VertexKey -> int, restrip: Handle -> Handle, visit: seq<Handle>): (r: Result<(map<Handle, Block>, seq<Option<Handle>>), Raised>)
    requires WellFormed(blocks) && forall k :: 0 <= k < |visit| ==> visit[k] in blocks
    ensures r.Ok? ==> WellFormed(r.value.0) && r.value.0.Keys == blocks.Keys
    ensures r.Ok? ==> forall x :: x in blocks ==> r.value.0[x].kind == blocks[x].kind
  {
    if visit == [] then Ok((blocks, []))
    else
      match GeomPass(blocks, order, exclude, hash, restrip, visit[..|visit| - 1])
      case Err(e) => Err(e)
      case Ok(st) => GeomStep(st.0, st.1, order, exclude, hash, restrip, visit[|visit| - 1])
  }

  /** One more turn of the geometry loop. */
  lemma GeomPassStep(
    blocks: map<Handle, Block>, order: seq<Handle>, exclude: seq<string>,
    hash: VertexKey -> int, restrip: Handle -> Handle, visit: seq<Handle>, i: nat,
    current: map<Handle, Block>, optimized: seq<Option<Handle>>)
    requires WellFormed(blocks) && forall k :: 0 <= k < |visit| ==> visit[k] in blocks
    requires i < |visit| && GeomPass(blocks, order, exclude, hash, restrip, visit[..i]) == Ok((current, optimized))
    ensures WellFormed(current) && current.Keys == blocks.Keys && visit[i] in current
    ensures GeomPass(blocks, order, exclude, hash, restrip, visit[..i + 1]) ==
      GeomStep(current, optimized, order, exclude, hash, restrip, visit[i])
  {
    assert visit[..i + 1][..i] == visit[..i];
  }

  /** Once a turn raises, the loop has raised: the error stays. */
  lemma {:induction false} GeomPassErrStays(
    blocks: map<Handle, Block>, order: seq<Handle>, exclude: seq<string>,
    hash: VertexKey -> int, restrip: Handle -> Handle, visit: seq<Handle>, i: nat)
    requires WellFormed(blocks) && forall k :: 0 <= k < |visit| ==> visit[k] in blocks
    requires i <= |visit| && GeomPass(blocks, order, exclude, hash, restrip, visit[..i]).Err?
    ensures GeomPass(blocks, order, exclude, hash, restrip, visit) == GeomPass(blocks, order, exclude, hash, restrip, visit[..i])
    decreases |visit| - i
  {
    if i < |visit| {
      assert visit[..i + 1][..i] == visit[..i];
      GeomPassErrStays(blocks, order, exclude, hash, restrip, visit, i + 1);
    } else {
      assert visit[..i] == visit;
    }
  }

  lemma RecordsExtend(
    blocks: map<Handle, Block>, exclude: seq<string>, visit: seq<Handle>, before: seq<Option<Handle>>, after: seq<Option<Handle>>)
    requires visit != [] && forall k :: 0 <= k < |visit| ==> visit[k] in blocks
    requires forall k :: 0 <= k < |visit| - 1 && OptimizesShape(blocks[visit[k]], exclude) ==> Some(visit[k]) in before
    requires forall x :: x in before ==> x in after
    requires OptimizesShape(blocks[visit[|visit| - 1]], exclude) ==> Some(visit[|visit| - 1]) in after
    ensures forall k :: 0 <= k < |visit| && OptimizesShape(blocks[visit[k]], exclude) ==> Some(visit[k]) in after
  {
  }

  /** Every optimizable shape the loop visited is in the list of optimized
      geometries once the loop is through, so none is optimized twice. */
  lemma {:induction false} GeomPassRecords(
    blocks: map<Handle, Block>, order: seq<Handle>, exclude: seq<string>,
    hash: VertexKey -> int, restrip: Handle -> Handle, visit: seq<Handle>)
    requires WellFormed(blocks) && forall k :: 0 <= k < |visit| ==> visit[k] in blocks
    requires GeomPass(blocks, order, exclude, hash, restrip, visit).Ok?
    ensures var r := GeomPass(blocks, order, exclude, hash, restrip, visit).value;
      forall k :: 0 <= k < |visit| && OptimizesShape(blocks[visit[k]], exclude) ==> Some(visit[k]) in r.1
  {
    if visit != [] {
      var p := visit[..|visit| - 1];
      GeomPassRecords(blocks, order, exclude, hash, restrip, p);
      var st := GeomPass(blocks, order, exclude, hash, restrip, p).value;
      var h := visit[|visit| - 1];
      var step := GeomStep(st.0, st.1, order, exclude, hash, restrip, h);
      assert GeomPass(blocks, order, exclude, hash, restrip, visit) == step;
      assert st.0[h].kind == blocks[h].kind;
      assert forall k :: 0 <= k < |visit| - 1 ==> visit[k] == p[k];
      RecordsExtend(blocks, exclude, visit, st.1, step.value.1);
    }
  }

  /** One turn of the geometry loop written out. */
  method OptimizeShapeBlock(
    blocks: map<Handle, Block>, optimized: seq<Option<Handle>>, order: seq<Handle>, exclude: seq<string>,
    hash: VertexKey -> int, restrip: Handle -> Handle, h: Handle) returns (r: Result<(map<Handle, Block>, seq<Option<Handle>>), Raised>)
    requires WellFormed(blocks) && h in blocks && Listed(order, blocks)
    ensures r == GeomStep(blocks, optimized, order, exclude, hash, restrip, h)
  {
    var b := blocks[h];
    if !OptimizesShape(b, exclude) || Some(h) in optimized {
      return Ok((blocks, optimized));
    }
    if b.data.None? || b.data.value !in blocks || !IsNiTriBasedGeomData(blocks[b.data.value].kind) {
      return Err(AttributeError);
    }
    var d := b.data.value;
    var res := OptimizeTriBasedGeom(blocks[d].shape, b.kind.NiTriStrips?, blocks[d].kind.NiTriStripsData?, hash);
    if res.Err? {
      return Err(res.error);
    }
    var updated := blocks;
    var newblock := None;
    if res.value.Some? {
      updated := blocks[d := blocks[d].(shape := res.value.value)];
      newblock := Some(restrip(h));
    }
    if newblock == Some(h) {
      return Ok((updated, optimized + [Some(h)]));
    }
    var replaced := ReplaceReferrers(updated, order, h, newblock);
    if replaced.Err? {
      return Err(replaced.error);
    }
    r := Ok((replaced.value, optimized + [Some(h), newblock]));
  }

  /** The geometry pass over the re-read list `order`. */
  method OptimizeGeometries(blocks: map<Handle, Block>, order: seq<Handle>, exclude: seq<string>, hash: VertexKey -> int, restrip: Handle -> Handle)
    returns (r: Result<(map<Handle, Block>, seq<Option<Handle>>), Raised>)
    requires WellFormed(blocks) && Listed(order, blocks)
    ensures r == GeomPass(blocks, order, exclude, hash, restrip, order)
  {
    var current := blocks;
    var optimized: seq<Option<Handle>> := [];
    var i := 0;
    while i < |order|
      invariant 0 <= i <= |order|
      invariant GeomPass(blocks, order, exclude, hash, restrip, order[..i]) == Ok((current, optimized))
    {
      GeomPassStep(blocks, order, exclude, hash, restrip, order, i, current, optimized);
      var step := OptimizeShapeBlock(current, optimized, order, exclude, hash, restrip, order[i]);
      if step.Err? {
        GeomPassErrStays(blocks, order, exclude, hash, restrip, order, i + 1);
        return Err(step.error);
      }
      current, optimized := step.value.0, step.value.1;
      i := i + 1;
    }
    assert order[..i] == order;
    r := Ok((current, optimized));
  }

  // --------------------------------------------------- shape data merging

  predicate IsShape(k: Kind)
  {
    k.NiTriShape? || k.NiTriStrips?
  }

  /** The search through the recorded shapes from position `i` for the
      first whose data is `isequalTriGeomData`-equal to `d`; |shapes| when
      there is none, the error when a comparison raises. */
  function FirstEqualFrom(
    blocks: map<Handle, Block>, shapes: seq<Handle>, i: nat, d: Option<Handle>,
    hash: VertexKey -> int, triangulate: seq<seq<nat>> -> seq<Triangle>): (r: Result<nat, Raised>)
    requires WellFormed(blocks) && i <= |shapes|
    ensures r.Ok? ==> i <= r.value <= |shapes|
    ensures r.Ok? && r.value < |shapes| ==>
      IsEqualTriGeomData(blocks, At(blocks, shapes[r.value]).data, d, hash, triangulate) == Ok(true)
    ensures r.Ok? ==> forall k :: i <= k < r.value ==>
      IsEqualTriGeomData(blocks, At(blocks, shapes[k]).data, d, hash, triangulate) == Ok(false)
    ensures r.Err? ==>
      exists k :: i <= k < |shapes| && IsEqualTriGeomData(blocks, At(blocks, shapes[k]).data, d, hash, triangulate) == Err(r.error)
    decreases |shapes| - i
  {
    if i == |shapes| then Ok(i)
    else
      match IsEqualTriGeomData(blocks, At(blocks, shapes[i]).data, d, hash, triangulate)
      case Err(e) => Err(e)
      case Ok(eq) => if eq then Ok(i) else FirstEqualFrom(blocks, shapes, i + 1, d, hash, triangulate)
  }

  method FindEqualShape(
    blocks: map<Handle, Block>, shapes: seq<Handle>, d: Option<Handle>,
    hash: VertexKey -> int, triangulate: seq<seq<nat>> -> seq<Triangle>) returns (r: Result<nat, Raised>)
    requires WellFormed(blocks)
    ensures r == FirstEqualFrom(blocks, shapes, 0, d, hash, triangulate)
  {
    var j := 0;
    while j < |shapes|
      invariant 0 <= j <= |shapes|
      invariant FirstEqualFrom(blocks, shapes, 0, d, hash, triangulate) == FirstEqualFrom(blocks, shapes, j, d, hash, triangulate)
    {
      var eq := IsEqualTriGeomData(blocks, At(blocks, shapes[j]).data, d, hash, triangulate);
      if eq.Err? {
        return Err(eq.error);
      }
      if eq.value {
        return Ok(j);
      }
      j := j + 1;
    }
    return Ok(j);
  }

  /** One turn of the shape-data loop: a shape whose data matches a
      recorded shape's takes that shape's data, any other shape is
      recorded. */
  function ShapeStep(
    blocks: map<Handle, Block>, shapes: seq<Handle>, hash: VertexKey -> int,
    triangulate: seq<seq<nat>> -> seq<Triangle>, h: Handle): (r: Result<(map<Handle, Block>, seq<Handle>), Raised>)
    requires WellFormed(blocks) && h in blocks
    ensures r.Ok? ==> WellFormed(r.value.0) && r.value.0.Keys == blocks.Keys
    ensures r.Ok? ==> forall x :: x in blocks ==> r.value.0[x] == blocks[x].(data := r.value.0[x].data)
  {
    var b := blocks[h];
    if !IsShape(b.kind) then Ok((blocks, shapes))
    else
      match FirstEqualFrom(blocks, shapes, 0, b.data, hash, triangulate)
      case Err(e) => Err(e)
      case Ok(k) =>
        if k < |shapes| then Ok((blocks[h := b.(data := At(blocks, shapes[k]).data)], shapes))
        else Ok((blocks, shapes + [h]))
  }

  /** A shape either takes over the data of the first recorded shape whose
      data compares equal to its own, or is recorded because no recorded
      shape's data does. */
  lemma ShapeStepMerges(
    blocks: map<Handle, Block>, shapes: seq<Handle>, hash: VertexKey -> int,
    triangulate: seq<seq<nat>> -> seq<Triangle>, h: Handle)
    requires WellFormed(blocks) && h in blocks && IsShape(blocks[h].kind)
    requires ShapeStep(blocks, shapes, hash, triangulate, h).Ok?
    ensures var r := ShapeStep(blocks, shapes, hash, triangulate, h).value;
      var d := blocks[h].data;
      (r.1 == shapes + [h] && r.0 == blocks &&
       forall k :: 0 <= k < |shapes| ==> IsEqualTriGeomData(blocks, At(blocks, shapes[k]).data, d, hash, triangulate) == Ok(false)) ||
      (r.1 == shapes &&
       exists k :: 0 <= k < |shapes| && r.0[h].data == At(blocks, shapes[k]).data &&
         IsEqualTriGeomData(blocks, At(blocks, shapes[k]).data, d, hash, triangulate) == Ok(true))
  {
    var k := FirstEqualFrom(blocks, shapes, 0, blocks[h].data, hash, triangulate).value;
    if k < |shapes| {
      assert ShapeStep(blocks, shapes, hash, triangulate, h).value.0[h].data == At(blocks, shapes[k]).data;
    }
  }

  function ShapePass(
    blocks: map<Handle, Block>, hash: VertexKey -> int, triangulate: seq<seq<nat>> -> seq<Triangle>,
    visit: seq<Handle>): (r: Result<(map<Handle, Block>, seq<Handle>), Raised>)
    requires WellFormed(blocks) && forall k :: 0 <= k < |visit| ==> visit[k] in blocks
    ensures r.Ok? ==> WellFormed(r.value.0) && r.value.0.Keys == blocks.Keys
    ensures r.Ok? ==> forall x :: x in blocks ==> r.value.0[x] == blocks[x].(data := r.value.0[x].data)
  {
    if visit == [] then Ok((blocks, []))
    else
      match ShapePass(blocks, hash, triangulate, visit[..|visit| - 1])
      case Err(e) => Err(e)
      case Ok(st) => ShapeStep(st.0, st.1, hash, triangulate, visit[|visit| - 1])
  }

  /** One more turn of the shape-data loop. */
  lemma ShapePassStep(
    blocks: map<Handle, Block>, hash: VertexKey -> int, triangulate: seq<seq<nat>> -> seq<Triangle>,
    visit: seq<Handle>, i: nat, current: map<Handle, Block>, shapes: seq<Handle>)
    requires WellFormed(blocks) && forall k :: 0 <= k < |visit| ==> visit[k] in blocks
    requires i < |visit| && ShapePass(blocks, hash, triangulate, visit[..i]) == Ok((current, shapes))
    ensures WellFormed(current) && visit[i] in current
    ensures ShapePass(blocks, hash, triangulate, visit[..i + 1]) == ShapeStep(current, shapes, hash, triangulate, visit[i])
  {
    assert visit[..i + 1][..i] == visit[..i];
  }

  lemma {:induction false} ShapePassErrStays(
    blocks: map<Handle, Block>, hash: VertexKey -> int, triangulate: seq<seq<nat>> -> seq<Triangle>,
    visit: seq<Handle>, i: nat)
    requires WellFormed(blocks) && forall k :: 0 <= k < |visit| ==> visit[k] in blocks
    requires i <= |visit| && ShapePass(blocks, hash, triangulate, visit[..i]).Err?
    ensures ShapePass(blocks, hash, triangulate, visit) == ShapePass(blocks, hash, triangulate, visit[..i])
    decreases |visit| - i
  {
    if i < |visit| {
      assert visit[..i + 1][..i] == visit[..i];
      ShapePassErrStays(blocks, hash, triangulate, visit, i + 1);
    } else {
      assert visit[..i] == visit;
    }
  }

  /** One turn of the shape-data loop written out. */
  method MergeShape(
    blocks: map<Handle, Block>, shapes: seq<Handle>, hash: VertexKey -> int,
    triangulate: seq<seq<nat>> -> seq<Triangle>, h: Handle) returns (r: Result<(map<Handle, Block>, seq<Handle>), Raised>)
    requires WellFormed(blocks) && h in blocks
    ensures r == ShapeStep(blocks, shapes, hash, triangulate, h)
  {
    var b := blocks[h];
    if !IsShape(b.kind) {
      return Ok((blocks, shapes));
    }
    var found := FindEqualShape(blocks, shapes, b.data, hash, triangulate);
    if found.Err? {
      return Err(found.error);
    }
    if found.value < |shapes| {
      r := Ok((blocks[h := b.(data := At(blocks, shapes[found.value]).data)], shapes));
    } else {
      r := Ok((blocks, shapes + [h]));
    }
  }

  method MergeShapeData(blocks: map<Handle, Block>, order: seq<Handle>, hash: VertexKey -> int, triangulate: seq<seq<nat>> -> seq<Triangle>)
    returns (r: Result<(map<Handle, Block>, seq<Handle>), Raised>)
    requires WellFormed(blocks) && Listed(order, blocks)
    ensures r == ShapePass(blocks, hash, triangulate, order)
  {
    var current := blocks;
    var shapes: seq<Handle> := [];
    var i := 0;
    while i < |order|
      invariant 0 <= i <= |order|
      invariant ShapePass(blocks, hash, triangulate, order[..i]) == Ok((current, shapes))
    {
      ShapePassStep(blocks, hash, triangulate, order, i, current, shapes);
      var step := MergeShape(current, shapes, hash, triangulate, order[i]);
      if step.Err? {
        ShapePassErrStays(blocks, hash, triangulate, order, i + 1);
        return Err(step.error);
      }
      current, shapes := step.value.0, step.value.1;
      i := i + 1;
    }
    assert order[..i] == order;
    r := Ok((current, shapes));
  }

  // ------------------------------------------------------------- testRoot

  lemma WellFormedKept(b0: map<Handle, Block>, b1: map<Handle, Block>)
    requires WellFormed(b0) && b1.Keys == b0.Keys
    requires forall h :: h in b0 ==> b1[h].kind == b0[h].kind && b1[h].shape == b0[h].shape
    ensures WellFormed(b1)
  {
  }

  /** The passes of `testRoot` before the children pass: texture paths,
      duplicate properties, then controller targets through the key map
      the property pass built. */
  function FixedUp(blocks: map<Handle, Block>, exclude: seq<string>, order: seq<Handle>, getHash: (Handle, bool) -> int)
    : (r: map<Handle, Block>)
    requires WellFormed(blocks) && Listed(order, blocks)
    ensures WellFormed(r) && r.Keys == blocks.Keys
    ensures forall h :: h in blocks ==> r[h].kind == blocks[h].kind && r[h].shape == blocks[h].shape
  {
    var b1 := FixedPaths(blocks, order, exclude);
    var p := PropertyPass(b1, exclude, getHash, map[], order);
    Retargeted(p.0, order, getHash, p.1)
  }

  method FixUp(blocks: map<Handle, Block>, exclude: seq<string>, order: seq<Handle>, getHash: (Handle, bool) -> int)
    returns (r: map<Handle, Block>)
    requires WellFormed(blocks) && Listed(order, blocks)
    ensures r == FixedUp(blocks, exclude, order, getHash)
  {
    var b1 := FixSourceTexturePaths(blocks, order, exclude);
    var b2, propertyMap := MergeDuplicateProperties(b1, order, exclude, getHash);
    r := FixControllerTargets(b2, order, getHash, propertyMap);
  }

  /** `opt_shapes`: the list holds no particle mesh emitter. */
  predicate NoEmitter(blocks: map<Handle, Block>, order: seq<Handle>)
    requires Listed(order, blocks)
  {
    forall k :: 0 <= k < |order| ==> !blocks[order[k]].kind.NiPSysMeshEmitter?
  }

  /** The passes of `testRoot` in order: texture paths, properties,
      controller targets, children (only without particle emitters),
      geometries over the list `order2`, and shape data over `order3`
      (again only without particle emitters). */
  function TestRootResult(
    blocks: map<Handle, Block>, exclude: seq<string>, order1: seq<Handle>, order2: seq<Handle>, order3: seq<Handle>,
    getHash: (Handle, bool) -> int, hash: VertexKey -> int, triangulate: seq<seq<nat>> -> seq<Triangle>,
    restrip: Handle -> Handle): (r: Result<map<Handle, Block>, Raised>)
    requires WellFormed(blocks) && Listed(order1, blocks) && Listed(order2, blocks) && Listed(order3, blocks)
    ensures r.Ok? ==> WellFormed(r.value) && r.value.Keys == blocks.Keys
    ensures r.Ok? ==> forall h :: h in blocks ==> r.value[h].kind == blocks[h].kind
  {
    var b3 := FixedUp(blocks, exclude, order1, getHash);
    var optShapes := NoEmitter(b3, order1);
    var b4 := if optShapes then DedupedChildren(b3, order1) else b3;
    WellFormedKept(b3, b4);
    match GeomPass(b4, order2, exclude, hash, restrip, order2)
    case Err(e) => Err(e)
    case Ok(st) =>
      if !optShapes then Ok(st.0)
      else
        match ShapePass(st.0, hash, triangulate, order3)
        case Err(e) => Err(e)
        case Ok(s) => Ok(s.0)
  }

  /** The passes of `testRoot` run one after the other on the block map. */
  method RunPasses(
    blocks: map<Handle, Block>, exclude: seq<string>, order1: seq<Handle>, order2: seq<Handle>, order3: seq<Handle>,
    getHash: (Handle, bool) -> int, hash: VertexKey -> int, triangulate: seq<seq<nat>> -> seq<Triangle>,
    restrip: Handle -> Handle) returns (r: Result<map<Handle, Block>, Raised>)
    requires WellFormed(blocks) && Listed(order1, blocks) && Listed(order2, blocks) && Listed(order3, blocks)
    ensures r == TestRootResult(blocks, exclude, order1, order2, order3, getHash, hash, triangulate, restrip)
  {
    var b3 := FixUp(blocks, exclude, order1, getHash);
    var optShapes := ShapesOptimizable(b3, order1);
    assert optShapes == NoEmitter(b3, order1);
    var b4 := b3;
    if optShapes {
      b4 := DedupChildren(b3, order1);
    }
    WellFormedKept(b3, b4);
    var geometries := OptimizeGeometries(b4, order2, exclude, hash, restrip);
    assert TestRootResult(blocks, exclude, order1, order2, order3, getHash, hash, triangulate, restrip) ==
      match geometries
      case Err(e) => Err(e)
      case Ok(st) =>
        if !optShapes then Ok(st.0)
        else
          match ShapePass(st.0, hash, triangulate, order3)
          case Err(e) => Err(e)
          case Ok(s) => Ok(s.0);
    if geometries.Err? {
      return Err(geometries.error);
    }
    if !optShapes {
      return Ok(geometries.value.0);
    }
    var merged := MergeShapeData(geometries.value.0, order3, hash, triangulate);
    if merged.Err? {
      return Err(merged.error);
    }
    r := Ok(merged.value.0);
  }

  /** `testRoot` on the file's graph: on success the graph is the result
      of the passes. */
  method TestRoot(
    g: NifData, exclude: seq<string>, order1: seq<Handle>, order2: seq<Handle>, order3: seq<Handle>,
    getHash: (Handle, bool) -> int, hash: VertexKey -> int, triangulate: seq<seq<nat>> -> seq<Triangle>,
    restrip: Handle -> Handle) returns (err: Option<Raised>)
    requires WellFormed(g.blocks) && Listed(order1, g.blocks) && Listed(order2, g.blocks) && Listed(order3, g.blocks)
    modifies g
    ensures var r := TestRootResult(old(g.blocks), exclude, order1, order2, order3, getHash, hash, triangulate, restrip);
      (err.None? <==> r.Ok?) && (err.None? ==> g.blocks == r.value) && (err.Some? ==> err.value == r.error)
    ensures g.roots == old(g.roots)
  {
    var r := RunPasses(g.blocks, exclude, order1, order2, order3, getHash, hash, triangulate, restrip);
    if r.Err? {
      return Some(r.error);
    }
    g.blocks := r.value;
    err := None;
  }
}
