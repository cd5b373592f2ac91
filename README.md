# NIF optimizer spells, MOPP codec and XSD names in Dafny

This project is a verified model of the integer and index logic of PyFFI's
NIF optimizer. It covers two generations of the optimizer.

- The spell classes (`pyffi/spells/nif/optimize.py`):
  - `opt_cleanreflists` removes None and duplicate references;
  - `opt_mergeduplicates` merges interchangeable branches;
  - `opt_optimizegeometry` removes duplicate vertices, re-points triangles
    and strips, and regroups skin weights and morph vectors;
  - `opt_collisiongeometry` compacts packed collision shapes and recomputes
    sub-shape vertex counts;
  - `opt_delunusedbones` removes unused bone nodes;
  - `opt_optimizeanimation` drops redundant scalar and text keys.
- The older `testRoot` script (`niftools/pyffi/PyFFI/Spells/NIF/optimize.py`).
  It has:
  - an inline unique map;
  - `optimizeTriBasedGeom`;
  - the shape comparison `isequalTriGeomData`;
  - `fixTexturePath`;
  - the passes that clean property and child lists, merge properties by
    (class, hash) key, retarget controllers, replace optimized geometries
    in every referrer, and share equal shape data.

It also covers the `bhkMoppBvTreeShape` MOPP bytecode codec
(`niftools/PyFFI/NIF/bhkMoppBvTreeShape.py`). `parseMopp` is a
recursive-descent decoder and `updateMopp` is the trivial-tree encoder.
Finally, it covers the XSD object model's name functions
(`pyffi/object_models/xsd/__init__.py`): `name_attribute`, `name_class` and
the class-name derivation of `NodeTree.factory`.

## How the model is built

- **Modules.** Each module follows one part of the source:
  - `Common`: Option, Result, the raised exception kinds, and `Range`;
  - `Ascii`: character classes and ASCII case mapping;
  - `XsdNames`: the XSD name functions;
  - `UniqueMap`: the first-occurrence-wins vertex map;
  - `Mopp`: the MOPP decoder, the encoder, and the shape class with
    `moppData` / `moppDataSize`;
  - `Geometry`: `SpellOptimizeGeometry`;
  - `Collision`: `SpellOptimizeCollisionGeometry`;
  - `Animation`: `SpellOptimizeAnimation`;
  - `Blocks`: the block graph and `replace_global_node`;
  - `Spells`: `SpellCleanRefLists`, `SpellMergeDuplicates` and
    `SpellDelUnusedBones`;
  - `LegacyGeometry` and `Legacy`: the niftools `optimize.py`.
- **Values.** Blocks of the NIF graph are integer handles in a
  `map<Handle, Block>`. A `Block` records its kind tag and every reference
  slot the optimizer touches.
- **Library code as parameters.** Library code whose body is not part of
  this model is a function parameter:
  - the vertex and triangle hash generators and `getHash`;
  - `is_interchangeable`;
  - stripification, triangulation and `stitchStrips`;
  - the block orders of `root.tree()` and `get_global_iterator()`.
- **Imperative code.** Code that updates objects in place is a class whose
  methods have `modifies` clauses:
  - the spells, with their `changed`, `branches`, `optimized` and
    `_used_bones` state;
  - the geometry, skin, morph and collision data blocks;
  - the MOPP shape;
  - the NIF data.
- **Loops.** Each loop of the source is a `while`/`for` loop with
  invariants. Each such method is proved equal to a specification function,
  and the properties the source promises are proved about that function as
  lemmas.
- **Floats.** Floating-point values are `real`. Vertex data and weights are
  only copied. Animation keys are compared through a key function
  `quantize` that stands for `int(precision * value)`. `Truncate` is its
  exact-real reading, with `int()` truncating toward zero.

## Model

Paths are relative to the repository root.

| member | source | states |
|---|---|---|
| UniqueMap.ComputeUniqueMap | niftools/pyffi/PyFFI/Spells/NIF/optimize.py:184-200 | The hash loop with `k_map` and `index` produces exactly `VMap(h)` and `VMapInverse(h)`. |
| UniqueMap.VMapRepresentative | niftools/pyffi/PyFFI/Spells/NIF/optimize.py:188-199 | `v_map[i]` is a valid new index whose representative is the first position with the same hash as i. That position is at most i and has the same hash. |
| UniqueMap.VMapInverseIncreasing | niftools/pyffi/PyFFI/Spells/NIF/optimize.py:195 | `v_map_inverse` is strictly increasing, holds old indices only, and is no longer than the input. |
| UniqueMap.VMapOfInverse | niftools/pyffi/PyFFI/Spells/NIF/optimize.py:193-195 | `v_map[v_map_inverse[k]] == k` for every new index k. |
| UniqueMap.VMapSameIff | niftools/pyffi/PyFFI/Spells/NIF/optimize.py:189-199 | Two old vertices get the same new index exactly when their hashes are equal. |
| UniqueMap.DistinctIsIdentity | niftools/pyffi/PyFFI/Spells/NIF/optimize.py:184-200 | With pairwise distinct hashes, both maps are the identity. |
| UniqueMap.KMapHas | niftools/pyffi/PyFFI/Spells/NIF/optimize.py:190-199 | After n steps, `k_map` maps every hash seen so far to the new index of its first occurrence. |
| UniqueMap.KMapUnseen | niftools/pyffi/PyFFI/Spells/NIF/optimize.py:191-196 | The KeyError branch is taken only for a hash that has not occurred earlier. |
| UniqueMap.KMapSeen | niftools/pyffi/PyFFI/Spells/NIF/optimize.py:197-199 | Every key in `k_map` is the hash of an earlier vertex. |
| UniqueMap.UniqueMapExample | niftools/pyffi/PyFFI/Spells/NIF/optimize.py:184-200 | Hashes [a,b,a,c] give `v_map` [0,1,0,2] and `v_map_inverse` [0,1,3]. |
| XsdNames.NameAttribute | pyffi/object_models/xsd/__init__.py:260-262 | The result of `name_attribute` has no whitespace, no ':' and no uppercase letter. |
| XsdNames.JoinedWordsIdentifier | pyffi/object_models/xsd/__init__.py:261-262 | Lowercased words of the ':'-free name, joined by '_', contain no whitespace, no ':' and no uppercase letter. |
| XsdNames.NameAttributeIdempotent | pyffi/object_models/xsd/__init__.py:260-262 | `name_attribute` applied twice equals applying it once. |
| XsdNames.NameAttributeOfSpaces | pyffi/object_models/xsd/__init__.py:261-262 | A whitespace-only name yields "". |
| XsdNames.NameAttributeOfWords | pyffi/object_models/xsd/__init__.py:261-262 | Words without ':' separated by spaces give the lowercased words joined by '_'. |
| XsdNames.NameAttributeExample | pyffi/object_models/xsd/__init__.py:256-257 | The doctest: 'tHis is A Silly naME' gives 'this_is_a_silly_name'. |
| XsdNames.NameClass | pyffi/object_models/xsd/__init__.py:278-283 | The nested `attrname +=` loop computes `NameClassOf(name)`, and it fails exactly where the source's `part[0]` raises. |
| XsdNames.Capitalize | pyffi/object_models/xsd/__init__.py:282 | The first character is uppercased and the rest of the part is unchanged. |
| XsdNames.CapitalizeAllNone | pyffi/object_models/xsd/__init__.py:280-282 | Concatenating capitalized parts fails exactly when some part is empty. |
| XsdNames.NameClassIsIdentifier | pyffi/object_models/xsd/__init__.py:278-283 | A class name from `name_class` has no whitespace and no '_'. |
| XsdNames.NameClassFailsOnEmptyPart | pyffi/object_models/xsd/__init__.py:278-282 | `name_class` fails exactly when splitting on whitespace and '_' produces an empty part. |
| XsdNames.NameClassDoubleUnderscore | pyffi/object_models/xsd/__init__.py:278-282 | A word containing '__' makes `name_class` fail. |
| XsdNames.NameClassOfPlainWords | pyffi/object_models/xsd/__init__.py:278-283 | Words without '_' separated by spaces give their capitalizations concatenated. |
| XsdNames.NameClassExample | pyffi/object_models/xsd/__init__.py:273-274 | The doctest: 'this IS a sillyNAME' gives 'ThisISASillyNAME'. |
| XsdNames.LocalName | pyffi/object_models/xsd/__init__.py:184 | The result is the suffix of the tag after its last '}', or the whole tag when there is no '}'. |
| XsdNames.LocalNameUnqualified | pyffi/object_models/xsd/__init__.py:184 | A tag without '}' is its own local name. |
| XsdNames.FactoryClassName | pyffi/object_models/xsd/__init__.py:184-185 | The class name fails exactly for an empty local name. Otherwise it is the local name with its first character uppercased. |
| XsdNames.FactoryClassNameQualified | pyffi/object_models/xsd/__init__.py:184-185 | `{ns}local` gives `local` capitalized, whatever the namespace. |
| XsdNames.FactoryClassNameExample | pyffi/object_models/xsd/__init__.py:184-185 | "{xs}complexType" gives "ComplexType". |
| Mopp.MoppBvTreeShape.ParseMopp | niftools/PyFFI/NIF/bhkMoppBvTreeShape.py:100-258 | The `while` loop with cursor, offset and `ret` flag, recursing at branches, returns `Parse(moppData, moppDataSize, start, toffset)`. |
| Mopp.Visit | niftools/PyFFI/NIF/bhkMoppBvTreeShape.py:112-246 | Every successor cursor of an opcode, whether a continuation or either side of a branch, is strictly after the current one. |
| Mopp.Next | niftools/PyFFI/NIF/bhkMoppBvTreeShape.py:112-131 | The next cursor after a bound, offset or jump opcode lies beyond all of its operand bytes. |
| Mopp.Then | niftools/PyFFI/NIF/bhkMoppBvTreeShape.py:180-230 | The then-target of a branch lies beyond its operand bytes. |
| Mopp.Else | niftools/PyFFI/NIF/bhkMoppBvTreeShape.py:180-230 | The else-target of a branch lies beyond its operand bytes. |
| Mopp.DecodeStaysInData | niftools/PyFFI/NIF/bhkMoppBvTreeShape.py:107-246 | A successful decode from i lists only byte positions in [i, \|moppData\|), and no more triangles than bytes. |
| Mopp.UnknownOpcodeIsGenuine | niftools/PyFFI/NIF/bhkMoppBvTreeShape.py:247-256 | An UnknownOpcode error names a position inside the data holding an unrecognised opcode. |
| Mopp.UnknownOpcodeRejected | niftools/PyFFI/NIF/bhkMoppBvTreeShape.py:247-256 | At the cursor, decoding raises ValueError for that opcode exactly when it is outside the recognised set. |
| Mopp.TruncatedOpcodeRejected | niftools/PyFFI/NIF/bhkMoppBvTreeShape.py:112-246 | A recognised opcode whose operands run past the data raises IndexError. |
| Mopp.LeafInStep | niftools/PyFFI/NIF/bhkMoppBvTreeShape.py:133-139 | A compact leaf 0x30+k with offset t yields triangle k+t, consumes one byte and ends the call. |
| Mopp.TestInStep | niftools/PyFFI/NIF/bhkMoppBvTreeShape.py:180-201 | A 0x12 test decodes its then side at i+4 and its else side at i+4+b[i+3], both with the current offset. It lists then before else. |
| Mopp.IncrementInStep | niftools/PyFFI/NIF/bhkMoppBvTreeShape.py:112-117 | `0x09 n` adds n to the triangle offset and continues after its two bytes. |
| Mopp.BoundsInFront | niftools/PyFFI/NIF/bhkMoppBvTreeShape.py:231-242 | The three bound opcodes are consumed and decoding continues after them. |
| Mopp.BoundsError | niftools/PyFFI/NIF/bhkMoppBvTreeShape.py:76-77 | The encoder accepts the bounds exactly when all are in 0..255. It raises the invalid-origin error exactly when one is negative. |
| Mopp.MoppBvTreeShape.UpdateMopp | niftools/PyFFI/NIF/bhkMoppBvTreeShape.py:58-97 | On a bound error nothing changes. Otherwise `moppData` is the trivial tree and `moppDataSize` is its length. |
| Mopp.StepsLength | niftools/PyFFI/NIF/bhkMoppBvTreeShape.py:85-90 | k test steps emit 5k bytes plus 2 for every 32 leaves. |
| Mopp.TrivialMoppLength | niftools/PyFFI/NIF/bhkMoppBvTreeShape.py:78-94 | For n ≥ 1 triangles the encoder emits 10 + 5(n-1) + 2((n-1)/32) bytes. |
| Mopp.ChainDecodes | niftools/PyFFI/NIF/bhkMoppBvTreeShape.py:83-91 | The test chain from leaf j decodes to all of its bytes and to triangles j..n-1 in order. |
| Mopp.EncodeThenDecode | niftools/PyFFI/NIF/bhkMoppBvTreeShape.py:83-91 | Round trip: for n ≥ 1, decoding the encoder's output from 0 yields every byte position and exactly the triangles [0, …, n-1]. |
| Mopp.EncodeEmptyDecodesTriangleZero | niftools/PyFFI/NIF/bhkMoppBvTreeShape.py:83-91 | For 0 triangles the encoder still emits the leaf 0x30, which decodes to triangle [0]. |
| Geometry.CompactCopy | pyffi/spells/nif/optimize.py:296-333 | Copying one per-vertex array element by element through `v_map_inverse` yields `Compact(src, inv)`. |
| Geometry.CompactLossless | pyffi/spells/nif/optimize.py:296-333 | When the hash determines the value, compaction loses nothing: old vertex i equals new vertex `v_map[i]`. |
| Geometry.CompactedDistinct | pyffi/spells/nif/optimize.py:291-293 | After compaction the vertex hashes are pairwise distinct. |
| Geometry.ReoptimizeIsIdentity | pyffi/spells/nif/optimize.py:273-291 | Optimizing already compacted hashes gives identity maps, so a geometry processed twice is not changed further. |
| Geometry.RemapTrianglesPreservesMesh | pyffi/spells/nif/optimize.py:354-358 | Re-pointing triangles succeeds exactly when every corner is an old index. Every new corner then addresses a vertex equal to the old one. |
| Geometry.RemapTriangleList | pyffi/spells/nif/optimize.py:354-358 | The corner-by-corner loop equals `RemapTriangles`, including IndexError on a bad corner. |
| Geometry.RemapStrip | pyffi/spells/nif/optimize.py:340-353 | The strip loop as written, with its repair of bad indices, equals `StripAsWritten`. |
| Geometry.RepairStrip | pyffi/spells/nif/optimize.py:340-353 | The strip loop with the position-0 repair corrected equals `StripRepaired`. |
| Geometry.StripRepairedIsValid | pyffi/spells/nif/optimize.py:340-353 | The repaired strip fails exactly when it is non-empty and has no good index. Otherwise it keeps its length, holds only new vertex indices and maps every good index through `v_map`. |
| Geometry.StripAsWrittenAgrees | pyffi/spells/nif/optimize.py:340-353 | When position 0 is valid, the loop as written and the corrected loop agree. |
| Geometry.StripAsWrittenFailsWith | pyffi/spells/nif/optimize.py:343-353 | The only error the strip loop raises is IndexError. |
| Geometry.StripRepairKeepsOldIndex | pyffi/spells/nif/optimize.py:350-353 | Counterexample: `v_map` [0,0,1] and strip [7,2,1]. As written, position 0 takes the old index 2, a vertex that no longer exists. The corrected loop gives [1,1,0]. |
| Geometry.StripPlanIsAverageRule | pyffi/spells/nif/optimize.py:381-397 | Within 32000 triangles, a strip geometry is triangulated exactly when sum(len²) < 10·max(1, sum(len)). So zero strips never divide by zero. |
| Geometry.LongStripsAreKept | pyffi/spells/nif/optimize.py:381-397 | Strips all of length ≥ 10 are kept, and stitched because STITCH is set. |
| Geometry.ShortStripsAreTriangulated | pyffi/spells/nif/optimize.py:381-393 | Strips all shorter than 10 are triangulated. |
| Geometry.CollectBoneWeights | pyffi/spells/nif/optimize.py:406-411 | The loop over vertices and their weight lists collects `BoneWeights(ws, bone)`. |
| Geometry.BoneWeightsMembers | pyffi/spells/nif/optimize.py:406-411 | A bone's list holds (i, w) exactly when vertex i has weight w for that bone, in non-decreasing vertex order. |
| Geometry.RegroupedWeightsMembers | pyffi/spells/nif/optimize.py:403-411 | After regrouping through `v_map_inverse`, (i, w) is in a bone's list exactly when the representative of new vertex i had weight w for that bone. |
| Geometry.SkinData.RegroupWeights | pyffi/spells/nif/optimize.py:399-416 | Every bone's weight list is rebuilt from the compacted weights, and its vertex count is the list's length. |
| Geometry.MorphData.CompactMorphs | pyffi/spells/nif/optimize.py:432-454 | IndexError is raised exactly when some morph's vectors are too short for a `v_map_inverse` entry. Otherwise every morph's vectors are compacted through `v_map_inverse`, resized with zero vectors, and `num_vertices` is the new count. |
| Geometry.CompactArrays | pyffi/spells/nif/optimize.py:296-333 | The compacted vertex arrays are well sized and have `len(v_map_inverse)` vertices. |
| Geometry.CompactArraysLossless | pyffi/spells/nif/optimize.py:296-333 | Positions, normals, colours and every UV set of old vertex i equal those of new vertex `v_map[i]`. |
| Geometry.CompactArraysCopy | pyffi/spells/nif/optimize.py:304-333 | The loops over positions, normals, UV sets and colours compute `CompactArrays`. |
| Geometry.TriGeomData.CompactVertexData | pyffi/spells/nif/optimize.py:296-337 | The geometry's vertex arrays become `CompactArrays` of the old ones, and its faces are untouched. |
| Geometry.TriGeomData.RemapTriangleIndices | pyffi/spells/nif/optimize.py:354-358 | Triangles are re-pointed through `v_map`, or IndexError is raised exactly when a corner is bad. |
| Geometry.TriGeomData.RemapStripIndices | pyffi/spells/nif/optimize.py:340-353 | Every strip becomes `StripAsWritten` of the old one, the strip loop as the program writes it. IndexError is raised exactly when that loop raises for some strip. |
| Geometry.OptimizeData | pyffi/spells/nif/optimize.py:291-358 | `v_map_inverse` comes from the hashes, the data is compacted, and triangles or strips are re-pointed as the program does. Failure happens exactly when a triangle corner or a strip loop raises. |
| Geometry.OptimizeGeometrySpell.BranchEntry | pyffi/spells/nif/optimize.py:259-465 | Non-geometry blocks recurse, and listed geometry is skipped. Fewer than 3 vertices removes the block. Otherwise the data is compacted and re-pointed, and the strip plan follows the average rule. Skin weights are regrouped, with each bone's vertex count equal to its list length. Morph vectors are compacted, or the outcome is `MorphFailed` exactly when a morph is too short. Skin and morph data stay unchanged when not reached, and `changed` is set for every geometry reached. |
| Collision.FixSubShapeCounts | pyffi/spells/nif/optimize.py:845-864 | The `while` scan over `new_i` and `old_max_index`, with its IndexError exit, computes `SubShapeCounts(inv, counts, first)`. |
| Collision.SubShapeCountsBounded | pyffi/spells/nif/optimize.py:845-864 | The recomputed sub-shape counts never sum to more than the new vertex count. |
| Collision.SubShapeCountsCorrected | pyffi/spells/nif/optimize.py:845-864 | With the scan starting at 0, the counts sum to exactly the new vertex count when the old ones summed to the old count. |
| Collision.OneSubShapeAgrees | pyffi/spells/nif/optimize.py:837-839 | For one sub-shape the scan gives the new vertex count, as the quick path does. |
| Collision.SubShapeCountsAsWritten | pyffi/spells/nif/optimize.py:845-854 | Counterexample: two distinct vertices in sub-shapes [1,1]. Starting at -1 as written gives [0,1]; starting at 0 gives [1,1]. |
| Collision.RemapHavokTriangles | pyffi/spells/nif/optimize.py:807-811 | The corners of collision triangles are re-pointed through `v_map`, normals are kept, and IndexError is raised exactly on a bad corner. |
| Collision.RemapCollisionTriangles | pyffi/spells/nif/optimize.py:807-811 | The loop computes `RemapHavokTriangles`. |
| Collision.TrianglesLossless | pyffi/spells/nif/optimize.py:812-835 | With an injective triangle hash, triangle dedup loses nothing: old triangle i equals new triangle `t_map[i]`. |
| Collision.OptimizeMopp | pyffi/spells/nif/optimize.py:782-864 | Vertices are compacted. Exactly 8 vertices raises AttributeError, and a bad corner raises IndexError. Otherwise triangles are re-pointed and deduplicated. Sub-shape counts are recomputed by the scan as the program writes it, whose running boundary starts at -1. |
| Collision.OptimizeCollisionSpell.BranchEntry | pyffi/spells/nif/optimize.py:868-893 | A listed shape is skipped, and a non-MOPP block recurses. Fewer than 3 vertices removes the shape. AttributeError happens exactly for 8 compacted vertices. IndexError happens exactly when a collision triangle has a bad corner. Otherwise the new shape holds the compacted vertices, the re-pointed and deduplicated triangles and the recomputed sub-shape counts, and it is recorded and marked changed. |
| Animation.Truncate | pyffi/spells/nif/optimize.py:1001 | `int()` truncates toward zero: floor for non-negative reals, ceiling for negative ones. |
| Animation.TruncateFacts | pyffi/spells/nif/optimize.py:1001 | Truncation keeps integers and commutes with negation. |
| Animation.QuantizeSameStep | pyffi/spells/nif/optimize.py:1001-1004 | Values in the same quantization step compare equal. |
| Animation.OptimizeKeys | pyffi/spells/nif/optimize.py:993-1022 | The append loop returns `OptimizedKeys`. That is the input itself for fewer than three keys, and otherwise the surviving keys. |
| Animation.OptimizedKeysSpec | pyffi/spells/nif/optimize.py:993-1022 | For three or more keys, the result picks keys at strictly increasing positions, including the first and the last. A key is dropped exactly when it is an inner key equal to both neighbours. |
| Animation.DroppedIff | pyffi/spells/nif/optimize.py:1000-1007 | A key fails the survival test exactly when it is inner and equal to both neighbours. |
| Animation.OptimizedKeysEnds | pyffi/spells/nif/optimize.py:996-1007 | A non-empty key list keeps its first and last key. |
| Animation.NothingToDrop | pyffi/spells/nif/optimize.py:993-1022 | Keys with no two equal neighbours come back unchanged. |
| Animation.SurvivorDiffers | pyffi/spells/nif/optimize.py:1000-1007 | Every inner survivor differs from one of its surviving neighbours. |
| Animation.OptimizeKeysIdempotent | pyffi/spells/nif/optimize.py:993-1022 | Optimizing the optimized keys changes nothing. |
| Animation.Overwritten | pyffi/spells/nif/optimize.py:1074-1078 | The resized list has one slot per new key, holding its time and value and the other fields of the slot that was at that position, or none for a fresh slot. |
| Animation.OverwrittenExact | pyffi/spells/nif/optimize.py:1074-1078 | When each slot already carries the other fields of the key landing in it, the result is the new keys themselves. |
| Animation.OverwrittenKeepsSlotFields | pyffi/spells/nif/optimize.py:1074-1078 | Of three equal keys, the middle one is dropped, and its slot ends with the third key's time and value and the second key's other fields. |
| Animation.RegroupedScalars | pyffi/spells/nif/optimize.py:1096-1098 | The group is unchanged exactly when the survivor count equals the stored count. Otherwise it takes that count and the survivors' times and values, slot by slot. |
| Animation.OptimizeAnimationSpell.UpdateAnimation | pyffi/spells/nif/optimize.py:1072-1079 | The group takes the new key count. The izip loop leaves slot j with the time and value of new key j and the other fields of the old key at position j. The spell is marked changed. |
| Animation.OptimizeAnimationSpell.OptimizeScalarGroup | pyffi/spells/nif/optimize.py:1096-1098 | Keys are compared through the spell's `quantize`. When the number of survivors differs from the stored count, the group is replaced. `changed` is set exactly when the group changed. |
| Animation.OptimizeAnimationSpell.BranchEntry | pyffi/spells/nif/optimize.py:1089-1124 | For keyframe data, type-4 XYZ rotations and scales are optimized through `quantize` when they hold keys. Text keys are optimized and discarded. Float data and other kinds leave the block alone, and only other blocks recurse. |
| Blocks.CleanedMembers | pyffi/spells/nif/optimize.py:126-135 | The cleaned list holds exactly the non-None references of the input. |
| Blocks.CleanedDistinct | pyffi/spells/nif/optimize.py:131-135 | No reference occurs twice in the cleaned list. |
| Blocks.CleanedOrder | pyffi/spells/nif/optimize.py:126-135 | The cleaned list keeps first-occurrence order. |
| Blocks.CleanedKeepsAllIff | pyffi/spells/nif/optimize.py:127-135 | Nothing is dropped exactly when the list has no None and no duplicate, which is exactly when the cleaned list equals the input. |
| Blocks.CleanedIdempotent | pyffi/spells/nif/optimize.py:123-137 | Cleaning a cleaned list changes nothing. |
| Blocks.ReplaceInListMembers | pyffi/spells/nif/optimize.py:202 | After replacement the list holds the old references except the target, plus the replacement, None included, when the target was there. |
| Blocks.ReplaceInListSlots | pyffi/spells/nif/optimize.py:202 | The list keeps its length. Slot by slot, the target becomes the replacement, None included, and other slots stay. |
| Blocks.ReplaceInBlockLinks | pyffi/spells/nif/optimize.py:202 | After replacement a block no longer links the target. Its other links are kept, and the replacement is linked where the target was. |
| Blocks.ReplaceGlobal | pyffi/spells/nif/optimize.py:202 | Global replacement keeps the set of handles and the kind of every block. |
| Blocks.ReplaceGlobalComplete | pyffi/spells/nif/optimize.py:202 | Global replacement keeps every block with its kind, name, file name and shape fields. No block links the target, every other link is kept, and the replacement is linked wherever the target was. |
| Blocks.NifData.ReplaceGlobalNode | pyffi/spells/nif/optimize.py:202 | The graph's blocks and roots become their replaced versions. |
| Spells.SpellCleanRefLists.CleanRefList | pyffi/spells/nif/optimize.py:123-137 | The loop returns `Cleaned(reflist)`, and `changed` is set exactly when something was dropped. |
| Spells.SpellCleanRefLists.DataInspect | pyffi/spells/nif/optimize.py:99-113 | The spell runs exactly when some block is a NiObjectNET and the header does not list NiPSysMeshEmitter. A failing header check counts as not listed. |
| Spells.SpellCleanRefLists.DataEntry | pyffi/spells/nif/optimize.py:115-117 | The roots are cleaned and everything else stays. |
| Spells.SpellCleanRefLists.BranchEntry | pyffi/spells/nif/optimize.py:139-156 | Extra data, properties, children and effects of the branch are cleaned according to its class, and recursion always goes on. |
| Spells.CleanedBlockLinks | pyffi/spells/nif/optimize.py:139-156 | Cleaning a block keeps its kind and exactly the set of blocks it links. |
| Spells.CleanedBlockIdempotent | pyffi/spells/nif/optimize.py:139-156 | Cleaning a block twice equals cleaning it once. |
| Spells.FirstInterchangeable | pyffi/spells/nif/optimize.py:188-190 | The result is the position of the first recorded branch, other than the branch itself, that is interchangeable with it. |
| Spells.MergeTarget | pyffi/spells/nif/optimize.py:187-200 | The survivor is the earliest recorded interchangeable branch. There is none when the branch is a controlled property or a BSShaderProperty. |
| Spells.SpellMergeDuplicates.BranchEntry | pyffi/spells/nif/optimize.py:187-210 | With a survivor, the branch is replaced by it everywhere, `changed` is set and recursion stops. Otherwise the branch is recorded and recursion goes on. |
| Spells.SpellMergeDuplicates.DataInspect | pyffi/spells/nif/optimize.py:169-180 | The spell runs exactly when the header does not list NiPSysMeshEmitter, and it runs when the header check fails. |
| Spells.SpellMergeDuplicates.Run | pyffi/spells/nif/optimize.py:169-210 | When `datainspect` refuses, nothing changes. Otherwise the visits to NiObjectNET and tri-based data blocks compute `MergeRun`, the fold of `branchentry`. |
| Spells.MergeRunRecords | pyffi/spells/nif/optimize.py:182-210 | A merge run keeps every handle and kind and extends the recorded branches. Each new record is a visited block that `branchinspect` accepts. When nothing changed, the blocks and roots are as before. |
| Spells.MergedBranchUnlinked | pyffi/spells/nif/optimize.py:200-205 | After a merge no block links the merged branch, and every block that linked it links the survivor. |
| Spells.RefSet | pyffi/spells/nif/optimize.py:648 | `set(skin_instance.bones)` holds exactly the non-None bones. |
| Spells.UsedBonesIff | pyffi/spells/nif/optimize.py:644-648 | A block is a used bone exactly when some listed geometry's skin instance names it. |
| Spells.SpellDelUnusedBones.DataEntry | pyffi/spells/nif/optimize.py:642-649 | The loop over the global block order collects `UsedBones`. |
| Spells.SpellDelUnusedBones.DataInspect | pyffi/spells/nif/optimize.py:638-640 | The spell runs exactly when some block is a NiSkinInstance. |
| Spells.SpellDelUnusedBones.BranchEntry | pyffi/spells/nif/optimize.py:655-663 | A childless NiNode that is not a used bone is removed everywhere, `changed` is set and recursion stops. Otherwise nothing changes. |
| Spells.RemovedBoneUnlinked | pyffi/spells/nif/optimize.py:657-660 | A removed bone is linked by no block afterwards, and every other link is kept. |
| LegacyGeometry.VertexHashes | niftools/pyffi/PyFFI/Spells/NIF/optimize.py:188 | One hash per vertex. |
| LegacyGeometry.InjectiveHashDetermines | niftools/pyffi/PyFFI/Spells/NIF/optimize.py:188-245 | With an injective vertex hash, every array (positions, normals, colours, each UV set) is a function of the hashes, so compaction is lossless. |
| LegacyGeometry.HashTriangles | niftools/pyffi/PyFFI/Spells/NIF/optimize.py:99-102 | Hashing the triangles succeeds exactly when every corner indexes the vertex hashes. Otherwise it raises IndexError. |
| LegacyGeometry.IsEqualTriGeomData | niftools/pyffi/PyFFI/Spells/NIF/optimize.py:61-111 | The same object compares True. A missing side of two different objects compares False, as do different classes. AttributeError is raised exactly for two different objects of the same class that is not tri-based geometry data. Any other error is IndexError. |
| LegacyGeometry.IsEqualReflexiveSymmetric | niftools/pyffi/PyFFI/Spells/NIF/optimize.py:61-111 | `isequalTriGeomData` is True for identical objects and symmetric. |
| LegacyGeometry.IsEqualMeans | niftools/pyffi/PyFFI/Spells/NIF/optimize.py:76-111 | For distinct blocks, True means the same class, equal listed attributes, and mutual containment of the vertex-hash lists and of the hashed triangles. |
| LegacyGeometry.IsEqualOfCopies | niftools/pyffi/PyFFI/Spells/NIF/optimize.py:61-111 | Two copies of the same well-formed geometry data compare equal. |
| LegacyGeometry.Escape | niftools/pyffi/PyFFI/Spells/NIF/optimize.py:358-359 | Every character of the result is a kept character of the input or part of the replacement. |
| LegacyGeometry.FixTexturePath | niftools/pyffi/PyFFI/Spells/NIF/optimize.py:357-359 | The fixed file name contains no '\n' and no '\r'. |
| LegacyGeometry.FixTexturePathStable | niftools/pyffi/PyFFI/Spells/NIF/optimize.py:357-359 | A name without line breaks is unchanged, and fixing twice equals fixing once. |
| LegacyGeometry.FixTexturePathEscapes | niftools/pyffi/PyFFI/Spells/NIF/optimize.py:358 | A trailing newline turns into the two characters '\\' 'n'. |
| LegacyGeometry.RemapIndices | niftools/pyffi/PyFFI/Spells/NIF/optimize.py:250-251 | Every strip index becomes `v_map[index]`. An index outside `v_map` raises IndexError, with no repair. |
| LegacyGeometry.RemapStrips | niftools/pyffi/PyFFI/Spells/NIF/optimize.py:248-251 | All strips are remapped, or IndexError is raised when one of them fails. |
| LegacyGeometry.RemapStripsPlain | niftools/pyffi/PyFFI/Spells/NIF/optimize.py:248-251 | The nested strip loop computes `RemapStrips`. |
| LegacyGeometry.PlainAgreesWithRepair | niftools/pyffi/PyFFI/Spells/NIF/optimize.py:248-251 | On strips with valid indices the old loop and the repairing loop of the spell agree. |
| LegacyGeometry.OptimizedShape | niftools/pyffi/PyFFI/Spells/NIF/optimize.py:181-256 | The optimized shape keeps its header and has well-sized compacted arrays. |
| LegacyGeometry.TriBasedGeomOptimized | niftools/pyffi/PyFFI/Spells/NIF/optimize.py:176-256 | Fewer than 3 vertices gives None. AttributeError is raised exactly when there are at least 3 vertices and the shape class and data class disagree about strips. Any other error is IndexError. On success the result is an optimized shape with the same header. |
| LegacyGeometry.OptimizeTriBasedGeom | niftools/pyffi/PyFFI/Spells/NIF/optimize.py:155-256 | The imperative unique-map, copy and remap loops compute `TriBasedGeomOptimized`, including the AttributeError raised after the vertex copy. |
| LegacyGeometry.OptimizedShapeCounts | niftools/pyffi/PyFFI/Spells/NIF/optimize.py:202-256 | Optimization fails exactly on a bad strip or triangle index. On success the new vertex count is `len(v_map_inverse)`, never more than before, and the number of strips and triangles is kept. |
| Legacy.UniqueNonEmpty | niftools/pyffi/PyFFI/Spells/NIF/optimize.py:444-448 | The inline clean-up loop returns `Cleaned(list)`. |
| Legacy.PropKey | niftools/pyffi/PyFFI/Spells/NIF/optimize.py:463-473 | The key is the class name with a hash. Non-material properties and materials with other names are hashed ignoring strings. A NiMaterialProperty whose lowercased name is one of the special names is hashed with its strings. |
| Legacy.FixedPaths | niftools/pyffi/PyFFI/Spells/NIF/optimize.py:386-389 | The texture-path pass keeps every block and changes only file names. |
| Legacy.FixedPathsClean | niftools/pyffi/PyFFI/Spells/NIF/optimize.py:386-389 | Every listed, non-excluded NiSourceTexture ends with a fixed name, without line breaks. |
| Legacy.FixSourceTexturePaths | niftools/pyffi/PyFFI/Spells/NIF/optimize.py:385-389 | The loop computes `FixedPaths`. |
| Legacy.MergeEntryFacts | niftools/pyffi/PyFFI/Spells/NIF/optimize.py:456-486 | One turn keeps the key map consistent and its stored entries. The written-back property is the old one or a stored one with the same key. |
| Legacy.MergeListKeyed | niftools/pyffi/PyFFI/Spells/NIF/optimize.py:456-486 | The merge loop keeps the key map consistent and never changes a stored entry. |
| Legacy.MergeListSameKey | niftools/pyffi/PyFFI/Spells/NIF/optimize.py:456-486 | Every entry is replaced only by a stored property with the same (class, hash) key. So a property with a controller or of an excluded class never is. |
| Legacy.MergeListMerges | niftools/pyffi/PyFFI/Spells/NIF/optimize.py:474-486 | First seen wins: every mergeable property ends under its (class, hash) key in the map, and its list entry becomes the property stored under that key. |
| Legacy.MergeListIsMerged | niftools/pyffi/PyFFI/Spells/NIF/optimize.py:456-486 | After the merge loop every mergeable entry of the list is the property the map stores under its key. |
| Legacy.MergeProperties | niftools/pyffi/PyFFI/Spells/NIF/optimize.py:456-486 | The enumerate loop over properties equals `MergeList`. |
| Legacy.PropertyStep | niftools/pyffi/PyFFI/Spells/NIF/optimize.py:438-486 | The property pass on one block keeps every block and changes only property lists. |
| Legacy.PropertyPass | niftools/pyffi/PyFFI/Spells/NIF/optimize.py:438-486 | The property pass over the listed blocks keeps every block and changes only property lists. |
| Legacy.PropertyPassKeyed | niftools/pyffi/PyFFI/Spells/NIF/optimize.py:438-486 | Across the whole pass the property map stays consistent, and the first property stored under a key stays the one merged into. |
| Legacy.PropertyStepMerges | niftools/pyffi/PyFFI/Spells/NIF/optimize.py:438-486 | One block's turn leaves every block merged so far still merged, and merges the block itself when it is a NiAVObject. |
| Legacy.PropertyPassMerges | niftools/pyffi/PyFFI/Spells/NIF/optimize.py:438-486 | After the pass, every mergeable property of every listed NiAVObject is the one stored under its key. |
| Legacy.MergeDuplicateProperties | niftools/pyffi/PyFFI/Spells/NIF/optimize.py:436-486 | The pass, with clean-up, count update and merge per block, computes `PropertyPass`. |
| Legacy.Retargeted | niftools/pyffi/PyFFI/Spells/NIF/optimize.py:489-498 | The controller pass keeps every block and changes only targets. |
| Legacy.RetargetedToStored | niftools/pyffi/PyFFI/Spells/NIF/optimize.py:489-498 | A retargeted controller points at the property stored under its old target's key. Every other controller keeps its target. |
| Legacy.RetargetController | niftools/pyffi/PyFFI/Spells/NIF/optimize.py:490-498 | The body of the retargeting loop for one block computes that block in `Retargeted`. |
| Legacy.FixControllerTargets | niftools/pyffi/PyFFI/Spells/NIF/optimize.py:489-498 | The loop computes `Retargeted`. |
| Legacy.ShapesOptimizable | niftools/pyffi/PyFFI/Spells/NIF/optimize.py:502-505 | `opt_shapes` holds exactly when no listed block is a NiPSysMeshEmitter. |
| Legacy.DedupedChildren | niftools/pyffi/PyFFI/Spells/NIF/optimize.py:508-525 | The child pass keeps every block and changes only NiNode children. |
| Legacy.DedupedChildrenFacts | niftools/pyffi/PyFFI/Spells/NIF/optimize.py:517-525 | Every listed NiNode then has each child once, no None child, and the same set of children. |
| Legacy.DedupChildren | niftools/pyffi/PyFFI/Spells/NIF/optimize.py:508-525 | The loop computes `DedupedChildren`. |
| Legacy.RepointSlots | niftools/pyffi/PyFFI/Spells/NIF/optimize.py:550-552 | The enumerate loop over children computes `Slots`. |
| Legacy.SlotsCleared | niftools/pyffi/PyFFI/Spells/NIF/optimize.py:550-559 | When the new block differs from the old one, no slot holds the old block afterwards. |
| Legacy.Slots | niftools/pyffi/PyFFI/Spells/NIF/optimize.py:550-559 | The repointed list has the length of the old one. |
| Legacy.RepointReferrer | niftools/pyffi/PyFFI/Spells/NIF/optimize.py:549-567 | One referrer of a known class is repointed. Any other class is reported unknown, which is the RuntimeError branch. |
| Legacy.AnyUnrepointableIff | niftools/pyffi/PyFFI/Spells/NIF/optimize.py:546-567 | The loop fails exactly when some listed block links the old block but is of a class the loop does not know. |
| Legacy.RepointedAll | niftools/pyffi/PyFFI/Spells/NIF/optimize.py:546-562 | Repointing keeps every block, its kind, its shape fields and its data link. |
| Legacy.ReplacedReferrersFacts | niftools/pyffi/PyFFI/Spells/NIF/optimize.py:546-567 | After success no known slot of a listed block holds the old block, every slot that held it holds the new one, and non-referrers are unchanged. |
| Legacy.ReplaceReferrers | niftools/pyffi/PyFFI/Spells/NIF/optimize.py:546-567 | The referrer loop computes `ReplacedReferrers`, including the RuntimeError. |
| Legacy.RecordAndReplace | niftools/pyffi/PyFFI/Spells/NIF/optimize.py:541-567 | On success the shape is recorded, earlier records are kept, and the graph stays well formed with the same blocks and kinds. The only error is RuntimeError. |
| Legacy.GeomStep | niftools/pyffi/PyFFI/Spells/NIF/optimize.py:531-567 | AttributeError is raised exactly for an unrecorded optimizable shape whose data is missing or not tri-based, or that has at least 3 vertices and a data class not matching its strips class. A shape with fewer than 3 vertices goes through recording and replacement by None. On success the turn keeps the graph well formed with the same blocks and kinds, keeps earlier records, and records an optimizable shape. |
| Legacy.GeomPass | niftools/pyffi/PyFFI/Spells/NIF/optimize.py:527-567 | The geometry pass, when it succeeds, keeps the graph well formed with the same blocks and kinds. |
| Legacy.GeomPassRecords | niftools/pyffi/PyFFI/Spells/NIF/optimize.py:537-545 | Every optimizable shape visited ends up in the optimized list, so none is optimized twice. |
| Legacy.OptimizeShapeBlock | niftools/pyffi/PyFFI/Spells/NIF/optimize.py:532-567 | One turn of the geometry loop, checking the vertex count before the data class, computes `GeomStep`. |
| Legacy.OptimizeGeometries | niftools/pyffi/PyFFI/Spells/NIF/optimize.py:527-567 | The loop computes `GeomPass`. |
| Legacy.FirstEqualFrom | niftools/pyffi/PyFFI/Spells/NIF/optimize.py:583-589 | The result is the first recorded shape whose data compares equal, after all earlier ones compared unequal. Otherwise the error of a comparison that raised. |
| Legacy.FindEqualShape | niftools/pyffi/PyFFI/Spells/NIF/optimize.py:583-589 | The for/break search computes `FirstEqualFrom` from 0. |
| Legacy.ShapeStep | niftools/pyffi/PyFFI/Spells/NIF/optimize.py:581-592 | On success one shape step keeps the graph well formed and changes at most data links. |
| Legacy.ShapeStepMerges | niftools/pyffi/PyFFI/Spells/NIF/optimize.py:581-592 | A shape either takes the data of the first recorded shape with equal data, or is recorded when none compares equal. |
| Legacy.MergeShape | niftools/pyffi/PyFFI/Spells/NIF/optimize.py:581-592 | One turn of the shape loop computes `ShapeStep`. |
| Legacy.ShapePass | niftools/pyffi/PyFFI/Spells/NIF/optimize.py:575-592 | On success the shape pass keeps the graph well formed and changes at most data links. |
| Legacy.MergeShapeData | niftools/pyffi/PyFFI/Spells/NIF/optimize.py:569-592 | The loop computes `ShapePass`. |
| Legacy.FixedUp | niftools/pyffi/PyFFI/Spells/NIF/optimize.py:385-498 | The texture, property and controller passes keep the graph well formed, with the same blocks, kinds and shape fields. |
| Legacy.FixUp | niftools/pyffi/PyFFI/Spells/NIF/optimize.py:385-498 | The texture, property and controller passes run in order compute `FixedUp`. |
| Legacy.TestRootResult | niftools/pyffi/PyFFI/Spells/NIF/optimize.py:363-592 | A successful run keeps the graph well formed, with the same blocks and kinds. |
| Legacy.RunPasses | niftools/pyffi/PyFFI/Spells/NIF/optimize.py:363-592 | All passes in order compute `TestRootResult`. |
| Legacy.TestRoot | niftools/pyffi/PyFFI/Spells/NIF/optimize.py:363-592 | On the graph object: success exactly when the passes succeed, and then the blocks are their result. Otherwise the raised error is reported. |

## Left out

- I/O is not modelled: toaster messages, logging, and every `print` in
  `parseMopp`, `optimizeTriBasedGeom` and `testRoot`.
- The vertex and triangle hash generators, `getHash`, `is_interchangeable`,
  stripification and triangulation (`set_triangles`, `get_triangles`,
  `get_interchangeable_tri_strips` / `_tri_shape`, the legacy strip
  functions), `stitchStrips` and the block orders of `root.tree()` and
  `get_global_iterator()` are parameters. Their code is not part of this
  model.
- `unique_map` (from `pyffi.utils`) is not part of this model. The spells
  use the inline map of niftools `optimize.py` lines 184-200 in its place.
  That the two agree is an assumption of this model.
- `replace_global_node` is not part of this model. `Blocks.ReplaceGlobal`
  repoints it slot by slot: every reference slot, in a list or a single
  field, that holds the old block holds the new one, and list lengths are
  kept. So replacing by None leaves a None slot, as the list repointing of
  niftools `optimize.py` lines 550-552 does. That the library behaves this
  way is an assumption of this model.
- The geometry and collision spells report a removed geometry as an
  outcome. They do not call `replace_global_node` on a graph, because
  their model does not hold the NIF data.
- Floating point: positions, normals, UVs, colours and weights are `real`
  and are only copied. The float precision parsing of `SpellReduceGeometry`
  is left out, because only float arithmetic depends on it.
- Animation.OptimizeAnimationSpell.OptimizeScalarGroup and
  Animation.OptimizeAnimationSpell.BranchEntry: the key function
  `quantize` is a parameter of the spell. Its double-precision evaluation
  is not modelled. `Truncate` and `QuantizeSameStep` are about the
  exact-real reading, which can differ: for precision 100 and the double
  nearest 0.03 the program's key is 3, but over exact reals it is 2.
- Animation.Key: the fields of a key other than its time and value (the
  tangents of quadratic keys, the tension, bias and continuity of TBC keys)
  are one list of reals, `rest`. Their own types are not modelled, only
  that `update_animation` leaves them in their slot.
- `updateOriginScale` and the `math.ceil` quantization of `updateMopp` are
  float arithmetic. The encoder takes the quantized bounds as integers.
- `get_box_shape` is float geometry and is left out, and so are the
  box-shape and rigid-body conversion paths of `branchentry`. Of these,
  only the bhkNiTriStripsShape path uses the undefined name `barnch`
  (pyffi `optimize.py` line 898). The packed-shape path calls
  `get_box_shape(branch.shape)` (line 920). `optimize_mopp` calls the
  undefined `self.boxshapechecker`. `Collision.OptimizeMopp` models that call, made
  for exactly 8 vertices, as AttributeError. The MOPP creation with magic
  bytes is left out.
- `update_skin_partition`, `update_tangent_space` and
  `update_mopp_welding` are library code. The skin-partition and
  tangent-space steps of both optimizers are left out.
- The vector and quaternion branches of `optimize_keys` use float
  truncation and a different window. The quaternion path for
  `rotation_type != 4` and the translation keys go through them, so they
  are left out too.
- `SpellSplitGeometry` and `SpellReduceGeometry` are left out:
  - `SpellSplitGeometry` is unfinished and uses undefined names;
  - `SpellReduceGeometry` differs only in float precision.
- The file-system checks of `datainspect`, the spell-group composition, the
  XSD metaclass, XML parsing, dynamic class creation and the `XsdSaxHandler`
  table are left out. None of them changes block data.
- These parts of `testRoot` are left out:
  - `fix_detachhavoktristripsdata`, which is in another module;
  - the alpha clamp, which is float arithmetic;
  - the duplicate source-texture join, which is not one of the modelled
    passes and needs texture descriptor records;
  - the skin and morph updates of `optimizeTriBasedGeom`;
  - the contents of the re-stripified blocks. `restrip` returns only
    their handles. `stripifyTriShape` always makes a new block (niftools
    `optimize.py` lines 265-268), so the shape-data pass does not see the
    data of the former NiTriShapes.
- Partial state left behind when an exception escapes midway is not
  modelled: a failing pass returns the error and no graph.
- Mopp.Parse: where `moppDataSize` exceeds the data it reports
  UnknownOpcode with no position inside the data. The source's trace
  listing could raise IndexError first, but the model assumes
  `moppDataSize == len(moppData)` where the codec writes it.
- Geometry.OptimizeGeometrySpell.BranchEntry: one `MorphData` stands for
  the loop over every NiGeomMorpherController (pyffi `optimize.py` lines
  432-454). Several controllers, or two controllers sharing one data block
  that is then compacted twice, are not modelled.
- Spells.SpellMergeDuplicates.Run: `visits` is the engine's visiting order.
  The traversal of the live graph and its pruning by the result of
  `branchentry` are not modelled. `inspectblocktype` is read as the
  presence of a block of that class. NiGeometryData is modelled as the two
  tri-based data kinds.
- Mopp.EncodeThenDecode: the round trip is stated for every n. The program
  recurses once per test step, so under Python's recursion limit (about
  1000 nested `parseMopp` calls) it completes only for bounded n.
- XsdNames: `lower`, `upper` and `split` are modelled on ASCII characters
  only.
- The list `self.optimized` of `SpellOptimizeGeometry` is never appended
  to in the source, and the model keeps that: a geometry reached twice is
  processed twice.

## Notes on the source

- Opcode 0x1B is not in the list of branch opcodes at
  `niftools/PyFFI/NIF/bhkMoppBvTreeShape.py:180`, so the decoder rejects
  it as unknown. The model follows the code.
- The spells run the strip loop and the sub-shape scan as the program
  writes them. The corrected definitions of the two findings below
  (`Geometry.RepairStrip` with `StripRepaired`, and `SubShapeCounts` with
  the scan starting at 0) stand beside them with their intended properties
  proved.

## Findings

| source | as written | input that shows it | evidently intended | confidence | as-written member | corrected member |
|---|---|---|---|---|---|---|
| pyffi/spells/nif/optimize.py:350-353 | A bad strip index at position 0 is replaced by `strip[1]`, which has not been remapped yet. It is an old vertex index. | hashes [a,a,b] (`v_map` [0,0,1]) and strip [7,2,1] give [2,1,0]. Index 2 does not exist after compaction. | Use the remapped value of the first valid index: [1,1,0]. | not executed | Geometry.StripRepairKeepsOldIndex | Geometry.StripRepairedIsValid |
| pyffi/spells/nif/optimize.py:845-854 | `old_max_index` starts at -1 and the scan uses a strict `<`, so the last vertex of each sub-shape is counted in the next one. | two distinct vertices in sub-shapes [1,1] give counts [0,1]. | Start at 0: counts [1,1], summing to the new vertex count. | not executed | Collision.SubShapeCountsAsWritten | Collision.SubShapeCountsCorrected |
