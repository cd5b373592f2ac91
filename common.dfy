/** Small wrappers shared by the whole model: an optional value (Python's
    None) and a success-or-error result (Python's exceptions). */
module Common {

  datatype Option<+T> = None | Some(value: T)

  datatype Result<+T, +E> = Ok(value: T) | Err(error: E)

  /** The Python exceptions the modelled code lets escape. */
  datatype Raised = IndexError | AttributeError | RuntimeError

  /** The half-open range [lo, hi) as a sequence, in increasing order. */
  function Range(lo: int, hi: int): (r: seq<int>)
    ensures |r| == if lo <= hi then hi - lo else 0
    ensures forall k :: 0 <= k < |r| ==> r[k] == lo + k
  {
    seq(if lo <= hi then hi - lo else 0, k => lo + k)
  }

  /** Adjacent ranges join into one. */
  lemma RangeAppend(lo: int, mid: int, hi: int)
    requires lo <= mid <= hi
    ensures Range(lo, mid) + Range(mid, hi) == Range(lo, hi)
  {
    var a, b := Range(lo, mid), Range(mid, hi);
    assert forall k :: 0 <= k < |a + b| ==> (a + b)[k] == lo + k by {
      forall k | 0 <= k < |a + b|
        ensures (a + b)[k] == lo + k
      {
        if k >= |a| {
          assert (a + b)[k] == b[k - |a|];
        }
      }
    }
  }

  lemma RangeSnoc(lo: int, hi: int)
    requires lo <= hi
    ensures Range(lo, hi + 1) == Range(lo, hi) + [hi]
  {
    assert Range(hi, hi + 1) == [hi];
    RangeAppend(lo, hi, hi + 1);
  }

  lemma RangeCons(lo: int, hi: int)
    requires lo < hi
    ensures Range(lo, hi) == [lo] + Range(lo + 1, hi)
  {
    assert Range(lo, lo + 1) == [lo];
    RangeAppend(lo, lo + 1, hi);
  }
}
