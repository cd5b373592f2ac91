/** SpellOptimizeAnimation: dropping animation keys whose (quantized)
    value equals the value of both neighbours, for scalar and text keys. */
module Animation {

  /** One animation key: a time, a value, and the key's other fields (the
      tangents of quadratic keys, the tension, bias and continuity of TBC
      keys), which the spell never compares. */
  datatype Key<V> = Key(time: real, value: V, rest: seq<real>)

  /** A key group stored inside a block: its key count and its keys. */
  datatype KeyGroup<V> = KeyGroup(numKeys: nat, keys: seq<Key<V>>)

  // ------------------------------------------------------ quantization

  /** Python's `int()` on a number: truncation toward zero. */
  function Truncate(r: real): (t: int)
    ensures 0.0 <= r ==> t as real <= r < t as real + 1.0
    ensures r < 0.0 ==> t as real - 1.0 < r <= t as real
  {
    if r >= 0.0 then
      assert r.Floor as real <= r < r.Floor as real + 1.0;
      r.Floor
    else
      assert (-r).Floor as real <= -r < (-r).Floor as real + 1.0;
      -((-r).Floor)
  }

  /** Truncation keeps whole numbers and is symmetric around zero. */
  lemma TruncateFacts(r: real, n: int)
    ensures Truncate(n as real) == n
    ensures Truncate(-r) == -Truncate(r)
  {
  }

  /** The scalar comparison key `int(precision * value)` read over exact
      reals. The program evaluates the product in double precision, so its
      key can differ from this one by a step (the spell therefore takes its
      key function as a parameter). */
  function ScalarKey(precision: real, x: real): int
  {
    Truncate(precision * x)
  }

  /** The scalar branch's comparison, as a function of the value. */
  function Quantize(precision: real): real -> int
  {
    x => ScalarKey(precision, x)
  }

  /** Values within the same unit step of `precision * x` on the same side
      of zero compare equal. */
  lemma QuantizeSameStep(precision: real, x: real, y: real, n: nat)
    requires n as real <= precision * x < n as real + 1.0
    requires n as real <= precision * y < n as real + 1.0
    ensures Quantize(precision)(x) == Quantize(precision)(y) == n
  {
    SameStep(Truncate(precision * x), n, precision * x);
    SameStep(Truncate(precision * y), n, precision * y);

  }

  lemma SameStep(t: int, n: int, r: real)
    requires t as real <= r < t as real + 1.0
    requires n as real <= r < n as real + 1.0
    ensures t == n
  {
    assert t < n + 1 && n < t + 1;
  }

  // ------------------------------------------------------ key selection

  /** Key i survives: it is the first key, it differs from the key before
      it, it is the last key (reading the key after it raises IndexError,
      which keeps it), or it differs from the key after it. */
  predicate Kept<V, Q(==)>(keys: seq<Key<V>>, q: V -> Q, i: nat)
    requires i < |keys|
  {
    i == 0 || q(keys[i - 1].value) != q(keys[i].value) ||
    i + 1 == |keys| || q(keys[i + 1].value) != q(keys[i].value)
  }

  /** The surviving positions among the first n, in order. */
  function KeptIndices<V, Q(==)>(keys: seq<Key<V>>, q: V -> Q, n: nat): (idx: seq<nat>)
    requires n <= |keys|
    ensures forall j :: 0 <= j < |idx| ==> idx[j] < n
  {
    if n == 0 then []
    else KeptIndices(keys, q, n - 1) + (if Kept(keys, q, n - 1) then [n - 1] else [])
  }

  /** The keys at the given positions. */
  function Select<V>(keys: seq<Key<V>>, idx: seq<nat>): (r: seq<Key<V>>)
    requires forall j :: 0 <= j < |idx| ==> idx[j] < |keys|
    ensures |r| == |idx| && forall j :: 0 <= j < |idx| ==> r[j] == keys[idx[j]]
  {
    seq(|idx|, j requires 0 <= j < |idx| => keys[idx[j]])
  }

  /** `optimize_keys` on the scalar and text branches: fewer than three
      keys come back unchanged, otherwise the surviving keys in order. */
  function OptimizedKeys<V, Q(==)>(keys: seq<Key<V>>, q: V -> Q): seq<Key<V>>
  {
    if |keys| < 3 then keys else Select(keys, KeptIndices(keys, q, |keys|))
  }

  lemma {:induction false} KeptIndicesFacts<V, Q>(keys: seq<Key<V>>, q: V -> Q, n: nat)
    requires n <= |keys|
    ensures forall a, b :: 0 <= a < b < |KeptIndices(keys, q, n)| ==>
      KeptIndices(keys, q, n)[a] < KeptIndices(keys, q, n)[b]
    ensures forall i :: 0 <= i < n ==> (i in KeptIndices(keys, q, n) <==> Kept(keys, q, i))
  {
    if n > 0 {
      KeptIndicesFacts(keys, q, n - 1);
    }
  }

  /** All the promises of `optimize_keys` for three keys or more: the
      result picks keys at strictly increasing positions, the first and the
      last key among them, and a key is dropped exactly when it sits
      between two keys that compare equal to it. */
  lemma OptimizedKeysSpec<V, Q>(keys: seq<Key<V>>, q: V -> Q)
    requires |keys| >= 3
    ensures var idx := KeptIndices(keys, q, |keys|);
      OptimizedKeys(keys, q) == Select(keys, idx) &&
      (forall a, b :: 0 <= a < b < |idx| ==> idx[a] < idx[b]) &&
      0 in idx && |keys| - 1 in idx &&
      forall i :: 0 <= i < |keys| ==>
        (i !in idx <==> 0 < i < |keys| - 1 && q(keys[i - 1].value) == q(keys[i].value) == q(keys[i + 1].value))
  {
    var idx := KeptIndices(keys, q, |keys|);
    KeptIndicesFacts(keys, q, |keys|);
    forall i | 0 <= i < |keys|
      ensures i !in idx <==> 0 < i < |keys| - 1 && q(keys[i - 1].value) == q(keys[i].value) == q(keys[i + 1].value)
    {
      DroppedIff(keys, q, i);
    }
  }

  /** A key is dropped exactly when it is an inner key equal to both
      neighbours. */
  lemma DroppedIff<V, Q>(keys: seq<Key<V>>, q: V -> Q, i: nat)
    requires i < |keys|
    ensures !Kept(keys, q, i) <==>
      0 < i < |keys| - 1 && q(keys[i - 1].value) == q(keys[i].value) == q(keys[i + 1].value)
  {
  }

  /** The survivors start with the first key and end with the last. */
  lemma OptimizedKeysEnds<V, Q>(keys: seq<Key<V>>, q: V -> Q)
    requires |keys| >= 1
    ensures |OptimizedKeys(keys, q)| >= 1
    ensures OptimizedKeys(keys, q)[0] == keys[0]
    ensures OptimizedKeys(keys, q)[|OptimizedKeys(keys, q)| - 1] == keys[|keys| - 1]
  {
    if |keys| >= 3 {
      KeptIndicesFacts(keys, q, |keys|);
      var idx := KeptIndices(keys, q, |keys|);
      assert 0 in idx && |keys| - 1 in idx;
      var a :| 0 <= a < |idx| && idx[a] == 0;
      var b :| 0 <= b < |idx| && idx[b] == |keys| - 1;
    }
  }

  /** Keys that all differ from their neighbours are all kept. */
  lemma NothingToDrop<V, Q>(keys: seq<Key<V>>, q: V -> Q)
    requires forall i :: 0 < i < |keys| ==> q(keys[i - 1].value) != q(keys[i].value)
    ensures OptimizedKeys(keys, q) == keys
  {
    if |keys| >= 3 {
      KeptIndicesFacts(keys, q, |keys|);
      AllKept(keys, q, |keys|);
    }
  }

  lemma {:induction false} AllKept<V, Q>(keys: seq<Key<V>>, q: V -> Q, n: nat)
    requires n <= |keys|
    requires forall i :: 0 <= i < n ==> Kept(keys, q, i)
    ensures KeptIndices(keys, q, n) == seq(n, i requires 0 <= i < n => i)
  {
    if n > 0 {
      AllKept(keys, q, n - 1);
    }
  }

  /** In a strictly increasing sequence the entry one below `idx[j]`, if
      present, is `idx[j - 1]`, and the entry one above is `idx[j + 1]`. */
  lemma Neighbours(idx: seq<nat>, j: nat, a: nat)
    requires forall x, y :: 0 <= x < y < |idx| ==> idx[x] < idx[y]
    requires j < |idx| && a < |idx|
    ensures idx[a] + 1 == idx[j] ==> j > 0 && idx[j - 1] == idx[a]
    ensures idx[a] == idx[j] + 1 ==> j + 1 < |idx| && idx[j + 1] == idx[a]
  {
  }

  /** The neighbour argument on an arbitrary enumeration of the kept
      positions. */
  lemma SurvivorDiffers<V, Q>(keys: seq<Key<V>>, q: V -> Q, idx: seq<nat>, j: nat)
    requires forall x, y :: 0 <= x < y < |idx| ==> idx[x] < idx[y]
    requires forall x :: 0 <= x < |idx| ==> idx[x] < |keys|
    requires forall i :: 0 <= i < |keys| ==> (i in idx <==> Kept(keys, q, i))
    requires 0 < j < |idx| - 1
    ensures q(keys[idx[j - 1]].value) != q(keys[idx[j]].value) || q(keys[idx[j + 1]].value) != q(keys[idx[j]].value)
  {
    var i := idx[j];
    assert Kept(keys, q, i) by {
      assert idx[j] in idx;
    }
    assert 0 < i < |keys| - 1 by {
      assert idx[0] < idx[j] < idx[|idx| - 1];
    }
    if q(keys[i - 1].value) != q(keys[i].value) {
      assert Kept(keys, q, i - 1);
      var a :| 0 <= a < |idx| && idx[a] == i - 1;
      Neighbours(idx, j, a);
    } else {
      assert Kept(keys, q, i + 1);
      var b :| 0 <= b < |idx| && idx[b] == i + 1;
      Neighbours(idx, j, b);
    }
  }

  /** Optimizing twice is optimizing once. */
  lemma OptimizeKeysIdempotent<V, Q>(keys: seq<Key<V>>, q: V -> Q)
    ensures OptimizedKeys(OptimizedKeys(keys, q), q) == OptimizedKeys(keys, q)
  {
    var out := OptimizedKeys(keys, q);
    if |keys| >= 3 && |out| >= 3 {
      forall j | 0 <= j < |out|
        ensures Kept(out, q, j)
      {
        if 0 < j < |out| - 1 {
          KeptIndicesFacts(keys, q, |keys|);
          SurvivorDiffers(keys, q, KeptIndices(keys, q, |keys|), j);
        }
      }
      AllKept(out, q, |out|);
    }
  }

  lemma SelectSnoc<V>(keys: seq<Key<V>>, idx: seq<nat>, i: nat)
    requires i < |keys| && forall j :: 0 <= j < |idx| ==> idx[j] < |keys|
    ensures Select(keys, idx + [i]) == Select(keys, idx) + [keys[i]]
  {
  }

  /** The key loop: the first key is kept, then each key is compared with
      the one before and, failing that, with the one after; the last key
      falls into the IndexError handler and is kept. */
  method OptimizeKeys<V, Q(==)>(keys: seq<Key<V>>, q: V -> Q) returns (newKeys: seq<Key<V>>)
    ensures newKeys == OptimizedKeys(keys, q)
  {
    if |keys| < 3 {
      return keys;
    }
    newKeys := [];
    for i := 0 to |keys|
      invariant newKeys == Select(keys, KeptIndices(keys, q, i))
    {
      var keep: bool;
      if i == 0 {
        keep := true;
      } else if q(keys[i - 1].value) != q(keys[i].value) {
        keep := true;
      } else if i + 1 < |keys| {
        keep := q(keys[i + 1].value) != q(keys[i].value);
      } else {
        keep := true;
      }
      assert keep == Kept(keys, q, i);
      if keep {
        SelectSnoc(keys, KeptIndices(keys, q, i), i);
        newKeys := newKeys + [keys[i]];
      }
      assert KeptIndices(keys, q, i + 1) == KeptIndices(keys, q, i) + (if keep then [i] else []);
    }
  }

  /** The string branch compares the values themselves. */
  function Same(s: string): string
  {
    s
  }

  // ------------------------------------------------------ the spell

  /** The blocks `branchentry` tells apart. */
  datatype AnimationBlock = KeyframeBlock | TextKeyBlock | FloatDataBlock | OtherBlock

  /** NiKeyframeData (and NiTransformData): the scalar key groups. */
  class KeyframeData {
    var numRotationKeys: nat
    var rotationType: nat
    var xyzRotations: seq<KeyGroup<real>>
    var scales: KeyGroup<real>

    constructor(n: nat, t: nat, xyz: seq<KeyGroup<real>>, s: KeyGroup<real>)
      ensures numRotationKeys == n && rotationType == t && xyzRotations == xyz && scales == s
    {
      numRotationKeys, rotationType, xyzRotations, scales := n, t, xyz, s;
    }
  }

  /** The key list after `keys.update_size()` to `|newKeys|` slots and the
      copy of each new key's time and value into the slot at its position:
      a slot that existed keeps its other fields, a fresh slot has none. */
  function Overwritten<V>(slots: seq<Key<V>>, newKeys: seq<Key<V>>): (r: seq<Key<V>>)
    decreases |newKeys|
    ensures |r| == |newKeys|
    ensures forall j :: 0 <= j < |newKeys| ==>
      r[j].time == newKeys[j].time && r[j].value == newKeys[j].value &&
      r[j].rest == if j < |slots| then slots[j].rest else []
  {
    if newKeys == [] then []
    else
      var slot := if slots == [] then Key(0.0, newKeys[0].value, []) else slots[0];
      [slot.(time := newKeys[0].time, value := newKeys[0].value)] +
      Overwritten(if slots == [] then [] else slots[1..], newKeys[1..])
  }

  /** When every slot already carries the other fields of the key that
      lands in it, the copy yields the new keys themselves. */
  lemma OverwrittenExact<V>(slots: seq<Key<V>>, newKeys: seq<Key<V>>)
    requires forall j :: 0 <= j < |newKeys| ==>
      newKeys[j].rest == if j < |slots| then slots[j].rest else []
    ensures Overwritten(slots, newKeys) == newKeys
  {
    var r := Overwritten(slots, newKeys);
    assert forall j :: 0 <= j < |newKeys| ==> r[j] == newKeys[j];
  }

  /** Dropping an inner key moves the time and value of the next survivor
      into the dropped key's slot, whose other fields stay: of three equal
      keys the second slot ends with the third key's time and the second
      key's tangents. */
  lemma OverwrittenKeepsSlotFields()
    ensures
      var keys := [Key(0.0, 5.0, [1.0]), Key(1.0, 5.0, [2.0]), Key(2.0, 5.0, [3.0])];
      OptimizedKeys(keys, Quantize(100.0)) == [keys[0], keys[2]] &&
      Overwritten(keys, [keys[0], keys[2]]) == [Key(0.0, 5.0, [1.0]), Key(2.0, 5.0, [2.0])]
  {
    var keys := [Key(0.0, 5.0, [1.0]), Key(1.0, 5.0, [2.0]), Key(2.0, 5.0, [3.0])];
    OptimizedKeysSpec(keys, Quantize(100.0));
    assert OptimizedKeys(keys, Quantize(100.0)) == [keys[0], keys[2]];
    var r := Overwritten(keys, [keys[0], keys[2]]);
    assert r[0] == Key(0.0, 5.0, [1.0]) && r[1] == Key(2.0, 5.0, [2.0]);
  }

  /** A scalar key group after the spell, with comparison key `q`: when the
      number of survivors differs from the stored key count, the group
      takes that count and the survivors' times and values, slot by slot. */
  function RegroupedScalars(g: KeyGroup<real>, q: real -> int): (r: KeyGroup<real>)
    ensures r == g <==> |OptimizedKeys(g.keys, q)| == g.numKeys
    ensures r != g ==>
      var k := OptimizedKeys(g.keys, q);
      r.numKeys == |r.keys| == |k| &&
      forall j :: 0 <= j < |k| ==> r.keys[j].time == k[j].time && r.keys[j].value == k[j].value
  {
    var k := OptimizedKeys(g.keys, q);
    if |k| != g.numKeys then KeyGroup(|k|, Overwritten(g.keys, k)) else g
  }

  /** The spell; `quantize` is its scalar comparison key,
      `int(precision * value)` with `precision` being
      `10 ** significance_check`, as evaluated in double precision
      (Quantize is its reading over exact reals). */
  class OptimizeAnimationSpell {
    var changed: bool
    const quantize: real -> int

    constructor(q: real -> int)
      ensures !changed && quantize == q
    {
      changed, quantize := false, q;
    }

    /** `update_animation`: the group takes the new key count, its key list
        is resized and each new key's time and value are copied into the
        slot at its position; the file is marked changed. */
    method UpdateAnimation<V>(group: KeyGroup<V>, newKeys: seq<Key<V>>) returns (g: KeyGroup<V>)
      modifies this
      ensures changed && g == KeyGroup(|newKeys|, Overwritten(group.keys, newKeys))
    {
      var keys: seq<Key<V>> := [];
      var j := 0;
      while j < |newKeys|
        invariant 0 <= j <= |newKeys|
        invariant |keys| == j
        invariant forall i :: 0 <= i < j ==>
          keys[i] == Key(newKeys[i].time, newKeys[i].value, if i < |group.keys| then group.keys[i].rest else [])
      {
        var slot := if j < |group.keys| then group.keys[j] else Key(0.0, newKeys[j].value, []);
        keys := keys + [slot.(time := newKeys[j].time, value := newKeys[j].value)];
        j := j + 1;
      }
      assert keys == Overwritten(group.keys, newKeys);
      g := KeyGroup(|newKeys|, keys);
      changed := true;
    }

    /** Optimizing one scalar key group. */
    method OptimizeScalarGroup(group: KeyGroup<real>) returns (g: KeyGroup<real>)
      modifies this
      ensures g == RegroupedScalars(group, quantize)
      ensures changed == (old(changed) || g != group)
    {
      var newKeys := OptimizeKeys(group.keys, quantize);
      if |newKeys| != group.numKeys {
        g := UpdateAnimation(group, newKeys);
      } else {
        g := group;
      }
    }

    /** `branchentry`. The XYZ rotation groups (rotation type 4) and the
        scale group are optimized when they hold keys; the text keys of a
        NiTextKeyExtraData are optimized but the result is discarded, so
        the block stays as it is. */
    method BranchEntry(kind: AnimationBlock, data: KeyframeData, textKeys: seq<Key<string>>)
      returns (recurse: bool)
      modifies this, data
      ensures recurse <==> kind == OtherBlock
      ensures kind != KeyframeBlock ==>
        changed == old(changed) && data.xyzRotations == old(data.xyzRotations) && data.scales == old(data.scales)
      ensures kind == KeyframeBlock ==>
        |data.xyzRotations| == |old(data.xyzRotations)| &&
        forall j :: 0 <= j < |data.xyzRotations| ==>
          data.xyzRotations[j] ==
            if old(data.numRotationKeys) != 0 && old(data.rotationType) == 4
            then RegroupedScalars(old(data.xyzRotations)[j], quantize)
            else old(data.xyzRotations)[j]
      ensures kind == KeyframeBlock ==>
        data.scales == if old(data.scales).numKeys != 0 then RegroupedScalars(old(data.scales), quantize) else old(data.scales)
      ensures kind == KeyframeBlock ==>
        changed == (old(changed) || data.xyzRotations != old(data.xyzRotations) || data.scales != old(data.scales))
      ensures data.numRotationKeys == old(data.numRotationKeys) && data.rotationType == old(data.rotationType)
    {
      match kind {
        case KeyframeBlock =>
          if data.numRotationKeys != 0 && data.rotationType == 4 {
            var groups := data.xyzRotations;
            for j := 0 to |groups|
              invariant |groups| == |old(data.xyzRotations)|
              invariant forall k :: j <= k < |groups| ==> groups[k] == old(data.xyzRotations)[k]
              invariant forall k :: 0 <= k < j ==> groups[k] == RegroupedScalars(old(data.xyzRotations)[k], quantize)
              invariant changed == (old(changed) || groups != old(data.xyzRotations))
              invariant data.scales == old(data.scales)
              invariant data.numRotationKeys == old(data.numRotationKeys) && data.rotationType == old(data.rotationType)
            {
              var g := OptimizeScalarGroup(groups[j]);
              groups := groups[j := g];
            }
            data.xyzRotations := groups;
          }
          if data.scales.numKeys != 0 {
            var s := OptimizeScalarGroup(data.scales);
            data.scales := s;
          }
          recurse := false;
        case TextKeyBlock =>
          var discarded := OptimizeKeys(textKeys, Same);
          recurse := false;
        case FloatDataBlock =>
          recurse := false;
        case OtherBlock =>
          recurse := true;
      }
    }
  }
}
