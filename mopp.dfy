/** The MOPP (Havok memory-optimised partial polytope) byte code stored in a
    `bhkMoppBvTreeShape`: the recursive-descent decoder `parseMopp`, which
    lists the bytes it visits and the triangle indices it reaches, and the
    encoder `updateMopp`, which writes a trivial linear tree over all
    triangles of the shape. */
module Mopp {
  import opened Common

  type Byte = x: int | 0 <= x < 256

  /** A big-endian 16-bit operand. */
  function Word(hi: Byte, lo: Byte): nat
  {
    256 * hi + lo
  }

  /** What `parseMopp` returns: the offsets of the bytes it processed and
      the triangle indices it met, in visiting order. */
  datatype Decoded = Decoded(ids: seq<int>, tris: seq<int>)

  /** IndexError from reading an operand past the end of the data, or the
      ValueError raised for an opcode outside the recognised set. */
  datatype MoppError = IndexOutOfRange | UnknownOpcode(offset: int, code: Byte)

  /** ValueError of `updateMopp` for a quantised bound below 0 ("invalid
      origin") or above 255 ("invalid scale"). */
  datatype EncodeError = InvalidOrigin | InvalidScale

  type DecodeResult = Result<Decoded, MoppError>

  // ---------------------------------------------------------------- opcodes

  /** Two-way branches: 0x10-0x1A and 0x1C (one-byte else offset), 0x20-0x22
      (one-byte else offset), 0x23-0x25 (two 16-bit jumps). */
  predicate IsBranchOpcode(c: Byte)
  {
    (0x10 <= c <= 0x1A) || c == 0x1C || (0x20 <= c <= 0x25)
  }

  /** Triangle leaves: compact 0x30-0x4F, and 0x50, 0x51, 0x53 with an
      8-bit or 16-bit index. */
  predicate IsLeafOpcode(c: Byte)
  {
    (0x30 <= c <= 0x51) || c == 0x53
  }

  /** Opcodes after which decoding goes on in the same call: the triangle
      offset updates 0x09-0x0B, the forward jumps 0x05 and 0x06, and the
      bound checks 0x26-0x28 and 0x01-0x04. */
  predicate IsContinueOpcode(c: Byte)
  {
    (0x09 <= c <= 0x0B) || c == 0x05 || c == 0x06 || (0x26 <= c <= 0x28) || (0x01 <= c <= 0x04)
  }

  predicate Recognised(c: Byte)
  {
    IsBranchOpcode(c) || IsLeafOpcode(c) || IsContinueOpcode(c)
  }

  /** How many operand bytes follow opcode `c`, i.e. the furthest byte the
      decoder reads after it, including reads made only for its trace
      output. */
  function Width(c: Byte): (w: nat)
    ensures w <= 6
  {
    if c == 0x09 || c == 0x05 || c == 0x50 then 1
    else if c == 0x0A || c == 0x06 || c == 0x51 || (0x20 <= c <= 0x22) || (0x26 <= c <= 0x28) then 2
    else if (0x10 <= c <= 0x1A) || c == 0x1C || (0x01 <= c <= 0x04) then 3
    else if c == 0x0B || c == 0x53 then 4
    else if 0x23 <= c <= 0x25 then 6
    else 0
  }

  /** The opcode and all its operands are present. */
  predicate HasOperands(m: seq<Byte>, i: nat)
    requires i < |m|
  {
    i + Width(m[i]) < |m|
  }

  /** The triangle a leaf names, with the current triangle offset added. */
  function LeafTriangle(m: seq<Byte>, i: nat, t: nat): nat
    requires i < |m| && HasOperands(m, i) && IsLeafOpcode(m[i])
  {
    var c := m[i];
    if c < 0x50 then c - 0x30 + t
    else if c == 0x50 then m[i + 1] + t
    else if c == 0x51 then Word(m[i + 1], m[i + 2]) + t
    else Word(m[i + 3], m[i + 4]) + t
  }

  /** Where decoding resumes after a continue opcode: just past its
      operands, plus the jump distance for 0x05 and 0x06. */
  function Next(m: seq<Byte>, i: nat): (r: nat)
    requires i < |m| && HasOperands(m, i) && IsContinueOpcode(m[i])
    ensures r > i + Width(m[i])
  {
    var c := m[i];
    if c == 0x05 then i + 2 + m[i + 1]
    else if c == 0x06 then i + 3 + Word(m[i + 1], m[i + 2])
    else i + Width(c) + 1
  }

  /** The triangle offset after a continue opcode: 0x09 and 0x0A add to it,
      0x0B replaces it, the others keep it. */
  function NextOffset(m: seq<Byte>, i: nat, t: nat): nat
    requires i < |m| && HasOperands(m, i) && IsContinueOpcode(m[i])
  {
    var c := m[i];
    if c == 0x09 then t + m[i + 1]
    else if c == 0x0A then t + Word(m[i + 1], m[i + 2])
    else if c == 0x0B then Word(m[i + 3], m[i + 4])
    else t
  }

  /** Start of a branch's first sub-tree. */
  function Then(m: seq<Byte>, i: nat): (r: nat)
    requires i < |m| && HasOperands(m, i) && IsBranchOpcode(m[i])
    ensures r > i + Width(m[i])
  {
    var c := m[i];
    if c <= 0x1C then i + 4
    else if c <= 0x22 then i + 3
    else i + 7 + Word(m[i + 3], m[i + 4])
  }

  /** Start of a branch's second sub-tree. */
  function Else(m: seq<Byte>, i: nat): (r: nat)
    requires i < |m| && HasOperands(m, i) && IsBranchOpcode(m[i])
    ensures r > i + Width(m[i])
  {
    var c := m[i];
    if c <= 0x1C then i + 4 + m[i + 3]
    else if c <= 0x22 then i + 3 + m[i + 2]
    else i + 7 + Word(m[i + 5], m[i + 6])
  }

  // ---------------------------------------------------------------- decoder

  /** What the decoder does at one opcode: fail, record a triangle and
      stop, record the opcode's bytes and go on at `next` with triangle
      offset `offset`, or record its bytes and decode two sub-trees. */
  datatype Action =
    | Fail(error: MoppError)
    | Leaf(own: seq<int>, tri: nat)
    | Go(own: seq<int>, next: nat, offset: nat)
    | Fork(own: seq<int>, first: nat, second: nat)

  /** The handling of the opcode at `i` under triangle offset `t`; `own`
      lists the opcode's byte and its operand bytes. */
  function Visit(m: seq<Byte>, i: nat, t: nat): (a: Action)
    requires i < |m|
    ensures a.Go? ==> a.next > i
    ensures a.Fork? ==> a.first > i && a.second > i
  {
    var c := m[i];
    if !Recognised(c) then Fail(UnknownOpcode(i, c))
    else if !HasOperands(m, i) then Fail(IndexOutOfRange)
    else
      var own := Range(i, i + Width(c) + 1);
      if IsLeafOpcode(c) then Leaf(own, LeafTriangle(m, i, t))
      else if IsContinueOpcode(c) then Go(own, Next(m, i), NextOffset(m, i, t))
      else Fork(own, Then(m, i), Else(m, i))
  }

  /** Bytes and triangles recorded before the rest of the decode. */
  function Prepend(ids: seq<int>, tris: seq<int>, r: DecodeResult): DecodeResult
  {
    match r
    case Ok(d) => Ok(Decoded(ids + d.ids, tris + d.tris))
    case Err(e) => Err(e)
  }

  /** A two-way branch: its own bytes, then everything the first sub-tree
      decode found, then everything the second found; the first failure
      wins. */
  function Branch(ids: seq<int>, sub1: DecodeResult, sub2: DecodeResult): DecodeResult
  {
    match sub1
    case Err(e) => Err(e)
    case Ok(d1) =>
      match sub2
      case Err(e) => Err(e)
      case Ok(d2) => Ok(Decoded(ids + d1.ids + d2.ids, d1.tris + d2.tris))
  }

  /** Distance of the cursor from the declared end: every jump and branch
      target lies after the cursor, so this decreases. */
  function Measure(size: int, i: int): nat
  {
    if i < size then size - i else 0
  }

  /** `parseMopp(start=i, toffset=t)` on data `m` whose declared size is
      `size`: decoding goes on while the cursor is below `size`; reading a
      byte at or past the end of `m` raises IndexError. */
  function Parse(m: seq<Byte>, size: int, i: nat, t: nat): DecodeResult
    decreases Measure(size, i)
  {
    if i >= size then Ok(Decoded([], []))
    else if i >= |m| then Err(IndexOutOfRange)
    else
      match Visit(m, i, t)
      case Fail(e) => Err(e)
      case Leaf(own, tri) => Ok(Decoded(own, [tri]))
      case Go(own, j, t') => Prepend(own, [], Parse(m, size, j, t'))
      case Fork(own, a, b) => Branch(own, Parse(m, size, a, t), Parse(m, size, b, t))
  }

  /** The bytes an opcode contributes are the opcode and its operands, all
      inside the data. */
  lemma VisitOwn(m: seq<Byte>, i: nat, t: nat)
    requires i < |m| && !Visit(m, i, t).Fail?
    ensures i + Width(m[i]) < |m| && Visit(m, i, t).own == Range(i, i + Width(m[i]) + 1)
  {
  }

  lemma PrependToEmpty(ids: seq<int>, tris: seq<int>)
    ensures Prepend(ids, tris, Ok(Decoded([], []))) == Ok(Decoded(ids, tris))
  {
    assert ids + [] == ids && tris + [] == tris;
  }

  lemma PrependNothing(r: DecodeResult)
    ensures Prepend([], [], r) == r
  {
    if r.Ok? {
      assert [] + r.value.ids == r.value.ids && [] + r.value.tris == r.value.tris;
    }
  }

  lemma PrependPrepend(a: seq<int>, b: seq<int>, c: seq<int>, d: seq<int>, r: DecodeResult)
    ensures Prepend(a, b, Prepend(c, d, r)) == Prepend(a + c, b + d, r)
  {
    if r.Ok? {
      assert a + (c + r.value.ids) == (a + c) + r.value.ids;
      assert b + (d + r.value.tris) == (b + d) + r.value.tris;
    }
  }

  /** The decode loop's bookkeeping at the declared end. */
  lemma ParseEnd(m: seq<Byte>, size: int, i: nat, t: nat, ids: seq<int>, tris: seq<int>)
    requires i >= size
    ensures Prepend(ids, tris, Parse(m, size, i, t)) == Ok(Decoded(ids, tris))
  {
    PrependToEmpty(ids, tris);
  }

  /** ... across an opcode that fails. */
  lemma FailStep(m: seq<Byte>, size: int, i: nat, t: nat, ids: seq<int>, tris: seq<int>)
    requires i < size && (i >= |m| || Visit(m, i, t).Fail?)
    ensures Prepend(ids, tris, Parse(m, size, i, t)) ==
      Err(if i >= |m| then IndexOutOfRange else Visit(m, i, t).error)
  {
  }

  /** ... across a leaf: the rest of the decode is that one leaf. */
  lemma LeafStep(m: seq<Byte>, size: int, i: nat, t: nat, ids: seq<int>, tris: seq<int>)
    requires i < size && i < |m| && Visit(m, i, t).Leaf?
    ensures Prepend(ids, tris, Parse(m, size, i, t)) ==
      Ok(Decoded(ids + Visit(m, i, t).own, tris + [Visit(m, i, t).tri]))
  {
  }

  /** ... across a continue opcode. */
  lemma ContinueStep(m: seq<Byte>, size: int, i: nat, t: nat, ids: seq<int>, tris: seq<int>)
    requires i < size && i < |m| && Visit(m, i, t).Go?
    ensures Prepend(ids, tris, Parse(m, size, i, t)) ==
      Prepend(ids + Visit(m, i, t).own, tris, Parse(m, size, Visit(m, i, t).next, Visit(m, i, t).offset))
  {
    var a := Visit(m, i, t);
    PrependPrepend(ids, tris, a.own, [], Parse(m, size, a.next, a.offset));
    assert tris + [] == tris;
  }

  /** A branch decodes its two sub-trees. */
  lemma ForkStep(m: seq<Byte>, size: int, i: nat, t: nat)
    requires i < size && i < |m| && Visit(m, i, t).Fork?
    ensures Parse(m, size, i, t) ==
      Branch(Visit(m, i, t).own, Parse(m, size, Visit(m, i, t).first, t), Parse(m, size, Visit(m, i, t).second, t))
  {
  }

  lemma PrependBranch(ids: seq<int>, tris: seq<int>, own: seq<int>, d1: Decoded, d2: Decoded)
    ensures Prepend(ids, tris, Branch(own, Ok(d1), Ok(d2))) ==
      Ok(Decoded(ids + own + d1.ids + d2.ids, tris + d1.tris + d2.tris))
  {
    assert ids + (own + d1.ids + d2.ids) == ids + own + d1.ids + d2.ids;
    assert tris + (d1.tris + d2.tris) == tris + d1.tris + d2.tris;
  }

  /** ... across a branch both of whose sub-tree decodes succeed. */
  lemma BranchStep(m: seq<Byte>, size: int, i: nat, t: nat, ids: seq<int>, tris: seq<int>,
                   d1: Decoded, d2: Decoded)
    requires i < size && i < |m| && Visit(m, i, t).Fork?
    requires Parse(m, size, Visit(m, i, t).first, t) == Ok(d1)
    requires Parse(m, size, Visit(m, i, t).second, t) == Ok(d2)
    ensures Prepend(ids, tris, Parse(m, size, i, t)) ==
      Ok(Decoded(ids + Visit(m, i, t).own + d1.ids + d2.ids, tris + d1.tris + d2.tris))
  {
    ForkStep(m, size, i, t);
    PrependBranch(ids, tris, Visit(m, i, t).own, d1, d2);
  }

  /** ... across a branch: it fails with the first failure of its sub-tree
      decodes. */
  lemma BranchFails(m: seq<Byte>, size: int, i: nat, t: nat, ids: seq<int>, tris: seq<int>, e: MoppError)
    requires i < size && i < |m| && Visit(m, i, t).Fork?
    requires Parse(m, size, Visit(m, i, t).first, t) == Err(e)
      || (Parse(m, size, Visit(m, i, t).first, t).Ok? && Parse(m, size, Visit(m, i, t).second, t) == Err(e))
    ensures Prepend(ids, tris, Parse(m, size, i, t)) == Err(e)
  {
  }

  /** Every byte the decoder reports lies at or after the start and inside
      the data, and it never reports more triangles than bytes. */
  lemma {:induction false} DecodeStaysInData(m: seq<Byte>, size: int, i: nat, t: nat)
    requires Parse(m, size, i, t).Ok?
    ensures forall k :: 0 <= k < |Parse(m, size, i, t).value.ids| ==>
      i <= Parse(m, size, i, t).value.ids[k] < |m|
    ensures |Parse(m, size, i, t).value.tris| <= |Parse(m, size, i, t).value.ids|
    decreases Measure(size, i)
  {
    if i < size {
      var a := Visit(m, i, t);
      VisitOwn(m, i, t);
      if a.Go? {
        DecodeStaysInData(m, size, a.next, a.offset);
      } else if a.Fork? {
        DecodeStaysInData(m, size, a.first, t);
        DecodeStaysInData(m, size, a.second, t);
      }
    }
  }

  /** A reported unknown opcode is genuine: it names an offset inside the
      data, at or after the start, holding a byte outside the recognised
      set. */
  lemma {:induction false} UnknownOpcodeIsGenuine(m: seq<Byte>, size: int, i: nat, t: nat)
    requires Parse(m, size, i, t).Err? && Parse(m, size, i, t).error.UnknownOpcode?
    ensures var e := Parse(m, size, i, t).error;
      i <= e.offset < |m| && m[e.offset] == e.code && !Recognised(e.code)
    decreases Measure(size, i)
  {
    var a := Visit(m, i, t);
    if a.Go? {
      UnknownOpcodeIsGenuine(m, size, a.next, a.offset);
    } else if a.Fork? {
      if Parse(m, size, a.first, t).Err? {
        UnknownOpcodeIsGenuine(m, size, a.first, t);
      } else {
        UnknownOpcodeIsGenuine(m, size, a.second, t);
      }
    }
  }

  /** An opcode outside the recognised set is rejected at once, whatever
      follows it; a recognised one never is. */
  lemma UnknownOpcodeRejected(m: seq<Byte>, size: int, i: nat, t: nat)
    requires i < size && i < |m|
    ensures Parse(m, size, i, t) == Err(UnknownOpcode(i, m[i])) <==> !Recognised(m[i])
  {
    var a := Visit(m, i, t);
    if Recognised(m[i]) && Parse(m, size, i, t) == Err(UnknownOpcode(i, m[i])) {
      if a.Go? {
        UnknownOpcodeIsGenuine(m, size, a.next, a.offset);
      } else if a.Fork? {
        if Parse(m, size, a.first, t).Err? {
          UnknownOpcodeIsGenuine(m, size, a.first, t);
        } else {
          UnknownOpcodeIsGenuine(m, size, a.second, t);
        }
      }
    }
  }

  /** An opcode whose operands run past the end of the data raises
      IndexError, whatever the opcode. */
  lemma TruncatedOpcodeRejected(m: seq<Byte>, size: int, i: nat, t: nat)
    requires i < size && i < |m| && Recognised(m[i]) && i + Width(m[i]) >= |m|
    ensures Parse(m, size, i, t) == Err(IndexOutOfRange)
  {
  }

  // ---------------------------------------------------------------- encoder

  /** The nine bytes of crude bounding-box checks, Z then Y then X. */
  function Bounds(maxx: Byte, maxy: Byte, maxz: Byte): seq<Byte>
  {
    [0x28, 0, maxz, 0x27, 0, maxy, 0x26, 0, maxx]
  }

  /** The bytes the encoder emits for triangle `t` of the chain: a Z test
      whose first sub-tree is the compact leaf for `t` and whose second
      starts right after it, followed by a triangle-offset increment of 32
      after every 32nd leaf. */
  function Step(maxz: Byte, t: nat): seq<Byte>
  {
    [0x12, maxz, 0, 1, 0x30 + t % 32] + (if (t + 1) % 32 == 0 then [0x09, 0x20] else [])
  }

  /** The first `k` steps, in order. */
  function Steps(maxz: Byte, k: nat): seq<Byte>
  {
    if k == 0 then [] else Steps(maxz, k - 1) + Step(maxz, k - 1)
  }

  /** The final compact leaf; for a shape without triangles it is 0x30. */
  function LastLeaf(n: nat): Byte
  {
    0x30 + (if n == 0 then 0 else (n - 1) % 32)
  }

  /** The data `updateMopp` writes for `n` triangles. */
  function TrivialMopp(maxx: Byte, maxy: Byte, maxz: Byte, n: nat): seq<Byte>
  {
    Bounds(maxx, maxy, maxz) + Steps(maxz, if n == 0 then 0 else n - 1) + [LastLeaf(n)]
  }

  /** The bound check raising ValueError in `updateMopp`. */
  function BoundsError(maxx: int, maxy: int, maxz: int): (r: Option<EncodeError>)
    ensures r.None? <==> 0 <= maxx < 256 && 0 <= maxy < 256 && 0 <= maxz < 256
    ensures r == Some(InvalidOrigin) <==> maxx < 0 || maxy < 0 || maxz < 0
  {
    if maxx < 0 || maxy < 0 || maxz < 0 then Some(InvalidOrigin)
    else if maxx > 255 || maxy > 255 || maxz > 255 then Some(InvalidScale)
    else None
  }

  lemma {:induction false} StepsLength(maxz: Byte, k: nat)
    ensures |Steps(maxz, k)| == 5 * k + 2 * (k / 32)
  {
    if k > 0 {
      StepsLength(maxz, k - 1);
    }
  }

  /** The encoder's length: nine bound bytes, five bytes per test, two per
      offset increment and one final leaf. */
  lemma TrivialMoppLength(maxx: Byte, maxy: Byte, maxz: Byte, n: nat)
    requires n >= 1
    ensures |TrivialMopp(maxx, maxy, maxz, n)| == 10 + 5 * (n - 1) + 2 * ((n - 1) / 32)
  {
    StepsLength(maxz, n - 1);
  }

  lemma ModStep(t: nat)
    ensures (t + 1) % 32 == if t % 32 == 31 then 0 else t % 32 + 1
  {
  }

  /** The steps from triangle `j` on, then the final leaf. */
  function Chain(maxz: Byte, j: nat, n: nat): seq<Byte>
    requires j < n
    decreases n - j
  {
    if j == n - 1 then [LastLeaf(n)] else Step(maxz, j) + Chain(maxz, j + 1, n)
  }

  lemma {:induction false} StepsThenChain(maxz: Byte, k: nat, n: nat)
    requires k < n
    ensures Steps(maxz, k) + Chain(maxz, k, n) == Steps(maxz, n - 1) + [LastLeaf(n)]
    decreases n - k
  {
    if k < n - 1 {
      StepsThenChain(maxz, k + 1, n);
      assert Steps(maxz, k + 1) == Steps(maxz, k) + Step(maxz, k);
      assert Chain(maxz, k, n) == Step(maxz, k) + Chain(maxz, k + 1, n);
      assert Steps(maxz, k) + (Step(maxz, k) + Chain(maxz, k + 1, n))
          == (Steps(maxz, k) + Step(maxz, k)) + Chain(maxz, k + 1, n);
    }
  }

  /** The compact leaf at `p` in a chain step. */
  lemma LeafInStep(m: seq<Byte>, p: nat, j: nat, t: nat)
    requires p < |m| && m[p] == 0x30 + j % 32 && t + j % 32 == j
    ensures Parse(m, |m|, p, t) == Ok(Decoded([p], [j]))
  {
    assert Range(p, p + 1) == [p];
  }

  /** The Z test opening a chain step. */
  lemma TestInStep(m: seq<Byte>, p: nat, t: nat)
    requires p + 4 < |m| && m[p] == 0x12 && m[p + 3] == 1
    ensures Parse(m, |m|, p, t) == Branch(Range(p, p + 4), Parse(m, |m|, p + 4, t), Parse(m, |m|, p + 5, t))
  {
  }

  /** The offset increment after every 32nd leaf. */
  lemma IncrementInStep(m: seq<Byte>, p: nat, t: nat, tris: seq<int>)
    requires p + 2 <= |m| && m[p] == 0x09 && m[p + 1] == 0x20
    requires Parse(m, |m|, p + 2, t + 32) == Ok(Decoded(Range(p + 2, |m|), tris))
    ensures Parse(m, |m|, p, t) == Ok(Decoded(Range(p, |m|), tris))
  {
    assert Next(m, p) == p + 2 && NextOffset(m, p, t) == t + 32;
    RangeAppend(p, p + 2, |m|);
    assert [] + tris == tris;
  }

  /** The bytes of a step that is followed by more of the chain. */
  lemma StepBytes(m: seq<Byte>, maxz: Byte, p: nat, j: nat, n: nat)
    requires j + 1 < n && p <= |m| && m[p..] == Chain(maxz, j, n)
    ensures p + 5 < |m| && m[p] == 0x12 && m[p + 3] == 1 && m[p + 4] == 0x30 + j % 32
    ensures (j + 1) % 32 != 0 ==> m[p + 5..] == Chain(maxz, j + 1, n)
    ensures (j + 1) % 32 == 0 ==> p + 7 <= |m| && m[p + 5] == 0x09 && m[p + 6] == 0x20 && m[p + 7..] == Chain(maxz, j + 1, n)
  {
    var s := Step(maxz, j);
    assert m[p..] == s + Chain(maxz, j + 1, n);
    assert m[p] == m[p..][0] && m[p + 3] == m[p..][3] && m[p + 4] == m[p..][4];
    if (j + 1) % 32 != 0 {
      assert m[p + 5..] == m[p..][5..];
    } else {
      assert m[p + 5] == m[p..][5] && m[p + 6] == m[p..][6];
      assert m[p + 7..] == m[p..][7..];
    }
  }

  /** A chain step whose leaf and whose rest decode as expected decodes
      every byte from `p` and the triangles j .. n-1. */
  lemma StepAssembles(m: seq<Byte>, p: nat, t: nat, j: nat, n: nat)
    requires p + 5 <= |m| && j < n
    requires Parse(m, |m|, p, t) == Branch(Range(p, p + 4), Parse(m, |m|, p + 4, t), Parse(m, |m|, p + 5, t))
    requires Parse(m, |m|, p + 4, t) == Ok(Decoded([p + 4], [j]))
    requires Parse(m, |m|, p + 5, t) == Ok(Decoded(Range(p + 5, |m|), Range(j + 1, n)))
    ensures Parse(m, |m|, p, t) == Ok(Decoded(Range(p, |m|), Range(j, n)))
  {
    RangeSnoc(p, p + 4);
    RangeAppend(p, p + 5, |m|);
    RangeCons(j, n);
  }

  /** Decoding a chain that runs to the end of the data, started with the
      triangle offset of the chain's 32-triangle block, visits every byte
      from `p` and yields triangles j .. n-1 in order. */
  lemma {:induction false} ChainDecodes(m: seq<Byte>, maxz: Byte, p: nat, j: nat, n: nat, t: nat)
    requires j < n && p <= |m| && m[p..] == Chain(maxz, j, n) && t + j % 32 == j
    ensures Parse(m, |m|, p, t) == Ok(Decoded(Range(p, |m|), Range(j, n)))
    decreases n - j
  {
    if j == n - 1 {
      assert Chain(maxz, j, n) == [LastLeaf(n)];
      assert m[p] == m[p..][0] == LastLeaf(n);
      assert |m| == p + 1;
      LeafInStep(m, p, j, t);
      assert Range(p, |m|) == [p];
      assert Range(j, n) == [j];
    } else {
      StepBytes(m, maxz, p, j, n);
      LeafInStep(m, p + 4, j, t);
      TestInStep(m, p, t);
      var tail := Parse(m, |m|, p + 5, t);
      ModStep(j);
      assert (j + 1) % 32 == 0 ==> t + 32 + (j + 1) % 32 == j + 1;
      assert (j + 1) % 32 != 0 ==> t + (j + 1) % 32 == j + 1;
      if (j + 1) % 32 != 0 {
        ChainDecodes(m, maxz, p + 5, j + 1, n, t);
      } else {
        ChainDecodes(m, maxz, p + 7, j + 1, n, t + 32);
        IncrementInStep(m, p + 5, t, Range(j + 1, n));
      }
      StepAssembles(m, p, t, j, n);
    }
  }

  /** A bound check in front of a decode that visits every byte to the
      end keeps that property and adds no triangle. */
  lemma BoundInFront(m: seq<Byte>, p: nat, t: nat, tris: seq<int>)
    requires p + 3 <= |m| && 0x26 <= m[p] <= 0x28
    requires Parse(m, |m|, p + 3, t) == Ok(Decoded(Range(p + 3, |m|), tris))
    ensures Parse(m, |m|, p, t) == Ok(Decoded(Range(p, |m|), tris))
  {
    assert Next(m, p) == p + 3 && NextOffset(m, p, t) == t;
    RangeAppend(p, p + 3, |m|);
    assert [] + tris == tris;
  }

  /** The three bound checks in front of a decode that visits every byte
      to the end. */
  lemma BoundsInFront(m: seq<Byte>, p: nat, t: nat, tris: seq<int>)
    requires p + 9 <= |m| && m[p] == 0x28 && m[p + 3] == 0x27 && m[p + 6] == 0x26
    requires Parse(m, |m|, p + 9, t) == Ok(Decoded(Range(p + 9, |m|), tris))
    ensures Parse(m, |m|, p, t) == Ok(Decoded(Range(p, |m|), tris))
  {
    BoundInFront(m, p + 6, t, tris);
    BoundInFront(m, p + 3, t, tris);
    BoundInFront(m, p, t, tris);
  }

  /** The encoder's output is the bound checks followed by the whole
      chain. */
  lemma TrivialMoppIsChain(maxx: Byte, maxy: Byte, maxz: Byte, n: nat)
    requires n >= 1
    ensures TrivialMopp(maxx, maxy, maxz, n) == Bounds(maxx, maxy, maxz) + Chain(maxz, 0, n)
  {
    StepsThenChain(maxz, 0, n);
    assert Steps(maxz, 0) + Chain(maxz, 0, n) == Chain(maxz, 0, n);
    var b := Bounds(maxx, maxy, maxz);
    assert b + Steps(maxz, n - 1) + [LastLeaf(n)] == b + (Steps(maxz, n - 1) + [LastLeaf(n)]);
  }

  /** Data made of the three bound checks and a whole chain decodes every
      byte and the triangles 0 .. n-1. */
  lemma ImageDecodes(m: seq<Byte>, maxz: Byte, n: nat, p: nat)
    requires n >= 1 && p + 9 <= |m| && m[p] == 0x28 && m[p + 3] == 0x27 && m[p + 6] == 0x26
    requires m[p + 9..] == Chain(maxz, 0, n)
    ensures Parse(m, |m|, p, 0) == Ok(Decoded(Range(p, |m|), Range(0, n)))
  {
    ChainDecodes(m, maxz, p + 9, 0, n, 0);
    BoundsInFront(m, p, 0, Range(0, n));
  }

  /** Round trip: decoding the encoder's output from the start visits every
      byte once, in order, and yields exactly the triangles 0 .. n-1. */
  lemma EncodeThenDecode(maxx: Byte, maxy: Byte, maxz: Byte, n: nat)
    requires n >= 1
    ensures var m := TrivialMopp(maxx, maxy, maxz, n);
      Parse(m, |m|, 0, 0) == Ok(Decoded(Range(0, |m|), Range(0, n)))
  {
    var m := TrivialMopp(maxx, maxy, maxz, n);
    var b := Bounds(maxx, maxy, maxz);
    TrivialMoppIsChain(maxx, maxy, maxz, n);
    assert m[9..] == Chain(maxz, 0, n);
    assert m[0] == b[0] && m[3] == b[3] && m[6] == b[6];
    ImageDecodes(m, maxz, n, 0);
  }

  /** For a shape without triangles the encoder still ends in leaf 0x30, so
      the decoder reports triangle 0, which the shape does not have. */
  lemma EncodeEmptyDecodesTriangleZero(maxx: Byte, maxy: Byte, maxz: Byte)
    ensures var m := TrivialMopp(maxx, maxy, maxz, 0);
      Parse(m, |m|, 0, 0) == Ok(Decoded(Range(0, 10), [0]))
  {
    var m := TrivialMopp(maxx, maxy, maxz, 0);
    assert m == [0x28, 0, maxz, 0x27, 0, maxy, 0x26, 0, maxx, 0x30];
    LeafInStep(m, 9, 0, 0);
    assert Range(9, 10) == [9];
    BoundsInFront(m, 0, 0, [0]);
  }

  // ---------------------------------------------------------------- shape

  /** The MOPP part of a `bhkMoppBvTreeShape`. */
  class MoppBvTreeShape {
    var moppData: seq<Byte>
    var moppDataSize: int

    constructor ()
      ensures moppData == [] && moppDataSize == 0
    {
      moppData := [];
      moppDataSize := 0;
    }

    /** The declared size matches the data. */
    predicate Valid()
      reads this
    {
      moppDataSize == |moppData|
    }

    /** `parseMopp`: the loop walks forward through bound, offset and jump
        opcodes and stops after a leaf or a branch; a branch decodes its two
        sub-trees by recursive calls with the current triangle offset. */
    method ParseMopp(start: nat, toffset: nat) returns (r: DecodeResult)
      ensures r == Parse(moppData, moppDataSize, start, toffset)
      decreases Measure(moppDataSize, start)
    {
      var mopp := moppData;
      ghost var goal := Parse(mopp, moppDataSize, start, toffset);
      var ids: seq<int> := [];
      var tris: seq<int> := [];
      var i: nat := start;
      var t: nat := toffset;
      var ret := false;
      PrependNothing(goal);
      while i < moppDataSize && !ret
        invariant start <= i
        invariant !ret ==> goal == Prepend(ids, tris, Parse(mopp, moppDataSize, i, t))
        invariant ret ==> goal == Ok(Decoded(ids, tris))
        decreases Measure(moppDataSize, i), if ret then 0 else 1
      {
        if i >= |mopp| {
          FailStep(mopp, moppDataSize, i, t, ids, tris);
          return Err(IndexOutOfRange);
        }
        var a := Visit(mopp, i, t);
        match a
        case Fail(e) =>
          FailStep(mopp, moppDataSize, i, t, ids, tris);
          return Err(e);
        case Leaf(own, tri) =>
          LeafStep(mopp, moppDataSize, i, t, ids, tris);
          ids, tris := ids + own, tris + [tri];
          ret := true;
        case Go(own, next, offset) =>
          ContinueStep(mopp, moppDataSize, i, t, ids, tris);
          ids := ids + own;
          i, t := next, offset;
        case Fork(own, first, second) =>
          var sub1 := ParseMopp(first, t);
          if sub1.Err? {
            BranchFails(mopp, moppDataSize, i, t, ids, tris, sub1.error);
            return Err(sub1.error);
          }
          var sub2 := ParseMopp(second, t);
          if sub2.Err? {
            BranchFails(mopp, moppDataSize, i, t, ids, tris, sub2.error);
            return Err(sub2.error);
          }
          BranchStep(mopp, moppDataSize, i, t, ids, tris, sub1.value, sub2.value);
          ids, tris := ids + own + sub1.value.ids + sub2.value.ids, tris + sub1.value.tris + sub2.value.tris;
          ret := true;
      }
      if !ret {
        ParseEnd(mopp, moppDataSize, i, t, ids, tris);
      }
      r := Ok(Decoded(ids, tris));
    }

    /** `updateMopp` with the quantised bounds given: rejects a bound
        outside 0..255 and otherwise replaces the data by the trivial tree
        for `numTriangles` triangles, with `moppDataSize` set to its
        length. */
    method UpdateMopp(maxx: int, maxy: int, maxz: int, numTriangles: nat) returns (r: Option<EncodeError>)
      modifies this
      ensures r == BoundsError(maxx, maxy, maxz)
      ensures r.Some? ==> moppData == old(moppData) && moppDataSize == old(moppDataSize)
      ensures r.None? ==> moppData == TrivialMopp(maxx, maxy, maxz, numTriangles) && Valid()
    {
      r := BoundsError(maxx, maxy, maxz);
      if r.Some? {
        return;
      }
      var mx: Byte, my: Byte, mz: Byte := maxx, maxy, maxz;
      var mopp := Bounds(mx, my, mz);
      var i: Byte := 0x30;
      var t: nat := 0;
      while t + 1 < numTriangles
        invariant numTriangles >= 1 ==> t <= numTriangles - 1
        invariant numTriangles == 0 ==> t == 0
        invariant mopp == Bounds(mx, my, mz) + Steps(mz, t)
        invariant i == 0x30 + t % 32
      {
        ghost var before := mopp;
        mopp := mopp + [0x12, mz, 0, 1, i];
        if i + 1 == 0x50 {
          mopp := mopp + [0x09, 0x20];
          i := 0x30;
        } else {
          i := i + 1;
        }
        ModStep(t);
        assert mopp == before + Step(mz, t);
        assert Steps(mz, t + 1) == Steps(mz, t) + Step(mz, t);
        t := t + 1;
      }
      mopp := mopp + [i];
      moppDataSize := |mopp|;
      // the resized buffer, every byte of which is overwritten below
      moppData := seq(|mopp|, _ => 0);
      var k := 0;
      while k < |mopp|
        invariant 0 <= k <= |mopp| == |moppData|
        invariant moppDataSize == |mopp|
        invariant forall j :: 0 <= j < k ==> moppData[j] == mopp[j]
      {
        moppData := moppData[k := mopp[k]];
        k := k + 1;
      }
    }
  }
}
