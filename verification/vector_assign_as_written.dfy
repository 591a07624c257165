/**
  The fused dense-packed and packed-packed kernels exactly as their leading
  loop is written: the loop that walks v up to the first stored index of e
  has `!right_zero_identity` in its condition, so for += and -= it stops at
  once and the iterator over v is never advanced to e's window. The values of
  e's window are then combined into v's first elements instead of the
  elements at their own indices. The kernels in VectorAssign advance the
  iterator and only skip the update; this module keeps the kernels as they
  are written, shows an input on which they differ, and proves that they
  agree whenever the shift cannot happen.
 */
module VectorAssignAsWritten {
  import opened Functional
  import opened Layouts
  import opened Containers
  import opened VectorAssign

  /**
    What the dense-packed kernel computes as written. Without the right-zero
    identity it is v := f(v, e). With it, element k of e's window is combined
    into v[k] rather than into v[e.start + k].
   */
  function DensePackedAsWritten(op: Op, v: seq<int>, e: PackedView): (r: seq<int>)
    requires e.Valid() && |v| == e.size
    ensures |r| == |v|
  {
    if RightZeroIdentity(op) then
      seq(|v|, k requires 0 <= k < |v| => if k < |e.values| then Apply(op, v[k], e.values[k]) else v[k])
    else
      ZipApply(op, v, e.ToDense())
  }

  /**
    The dense-packed kernel with the leading loop as written: for functors with
    the right-zero identity the loop stops at once, and the window is combined
    from the first element of v on.
   */
  method AssignFusedDensePackedAsWritten(v: array<int>, e: PackedView, op: Op)
    requires e.Valid() && v.Length == e.size
    modifies v
    ensures v[..] == DensePackedAsWritten(op, old(v[..]), e)
  {
    ghost var v0 := v[..];
    // Both loops guarded by `!right_zero_identity` run only without the identity.
    if RightZeroIdentity(op) {
      if |e.values| != 0 {
        CombineRange(v, 0, e.values, op);
      }
    } else {
      var i := 0;
      if |e.values| != 0 {
        ZeroUpdateRange(v, 0, e.start, op);
        CombineRange(v, e.start, e.values, op);
        i := e.start + |e.values|;
      }
      ZeroFillFrom(v, i);
    }
    DensePackedAsWrittenPointwise(op, v0, v[..], e);
  }

  /** The element-wise description of what the dense-packed kernel as written leaves in v. */
  lemma DensePackedAsWrittenPointwise(op: Op, v0: seq<int>, v1: seq<int>, e: PackedView)
    requires e.Valid() && |v0| == e.size && |v1| == |v0|
    requires RightZeroIdentity(op) ==> forall k :: 0 <= k < |v0| ==>
      v1[k] == if k < |e.values| then Apply(op, v0[k], e.values[k]) else v0[k]
    requires !RightZeroIdentity(op) ==> forall k :: 0 <= k < |v0| ==>
      v1[k] == Apply(op, v0[k], if e.start <= k < e.start + |e.values| then e.values[k - e.start] else 0)
    ensures v1 == DensePackedAsWritten(op, v0, e)
  {
    if !RightZeroIdentity(op) {
      var d := e.ToDense();
      forall k | 0 <= k < |v0| ensures v1[k] == ZipApply(op, v0, d)[k] {
      }
    }
  }

  /** The shift: v = [0, 0, 0] += a packed vector holding 5 at index 1 yields [5, 0, 0], not [0, 5, 0]. */
  lemma DensePackedShiftCounterexample()
    ensures DensePackedAsWritten(PlusAssign, [0, 0, 0], PackedView(3, 1, [5])) == [5, 0, 0]
    ensures ZipApply(PlusAssign, [0, 0, 0], PackedView(3, 1, [5]).ToDense()) == [0, 5, 0]
  {
    var e := PackedView(3, 1, [5]);
    assert e.ToDense() == [0, 5, 0];
  }

  /**
    The kernel as written computes v := f(v, e) whenever the shift cannot
    happen: f lacks the right-zero identity, e's window starts at index 0, or
    e stores nothing.
   */
  lemma DensePackedAsWrittenAgrees(op: Op, v: seq<int>, e: PackedView)
    requires e.Valid() && |v| == e.size
    requires !RightZeroIdentity(op) || e.start == 0 || |e.values| == 0
    ensures DensePackedAsWritten(op, v, e) == ZipApply(op, v, e.ToDense())
  {
    if RightZeroIdentity(op) {
      var r, d := DensePackedAsWritten(op, v, e), e.ToDense();
      forall k | 0 <= k < |v| ensures r[k] == ZipApply(op, v, d)[k] {
        if k >= |e.values| {
          assert d[k] == 0;
        }
      }
    }
  }

  /**
    What the packed-packed kernel computes on v's stored window as written.
    Without the right-zero identity it is f(v, e) on the window. With it,
    element k of e's window is combined into v's k-th stored element, which
    holds index v.start + k, rather than into the element holding e.start + k.
   */
  function PackedPackedAsWritten(op: Op, vstart: nat, data: seq<int>, e: PackedView): (r: seq<int>)
    requires e.Valid() && vstart + |data| <= e.size
    requires |e.values| != 0 ==> WindowIncludes(vstart, |data|, e)
    ensures |r| == |data|
  {
    if RightZeroIdentity(op) then
      seq(|data|, k requires 0 <= k < |data| => if k < |e.values| then Apply(op, data[k], e.values[k]) else data[k])
    else
      ZipApply(op, data, e.ToDense()[vstart .. vstart + |data|])
  }

  /** The packed-packed kernel with the leading loop as written. */
  method AssignFusedPackedPackedAsWritten(v: PackedVector, e: PackedView, op: Op)
    requires v.Valid() && e.Valid() && v.size == e.size
    requires |e.values| != 0 ==> WindowIncludes(v.start, v.data.Length, e)
    modifies v.data
    ensures v.data[..] == PackedPackedAsWritten(op, v.start, old(v.data[..]), e)
  {
    ghost var data0 := v.data[..];
    // Both loops guarded by `!right_zero_identity` run only without the identity.
    if RightZeroIdentity(op) {
      if |e.values| != 0 {
        CombineRange(v.data, 0, e.values, op);
      }
    } else {
      var i := 0;
      if |e.values| != 0 {
        ZeroUpdateRange(v.data, 0, e.start - v.start, op);
        CombineRange(v.data, e.start - v.start, e.values, op);
        i := e.start - v.start + |e.values|;
      }
      ZeroFillFrom(v.data, i);
    }
    PackedPackedAsWrittenPointwise(op, v.start, data0, v.data[..], e);
  }

  /** The element-wise description of what the packed-packed kernel as written leaves in v's window. */
  lemma PackedPackedAsWrittenPointwise(op: Op, vstart: nat, data0: seq<int>, data1: seq<int>, e: PackedView)
    requires e.Valid() && vstart + |data0| <= e.size && |data1| == |data0|
    requires |e.values| != 0 ==> WindowIncludes(vstart, |data0|, e)
    requires RightZeroIdentity(op) ==> forall k :: 0 <= k < |data0| ==>
      data1[k] == if k < |e.values| then Apply(op, data0[k], e.values[k]) else data0[k]
    requires !RightZeroIdentity(op) ==> forall k :: 0 <= k < |data0| ==>
      data1[k] == Apply(op, data0[k],
        if e.start <= vstart + k < e.start + |e.values| then e.values[vstart + k - e.start] else 0)
    ensures data1 == PackedPackedAsWritten(op, vstart, data0, e)
  {
    if !RightZeroIdentity(op) {
      var d := e.ToDense()[vstart .. vstart + |data0|];
      forall k | 0 <= k < |data0| ensures data1[k] == ZipApply(op, data0, d)[k] {
        assert d[k] == e.ToDense()[vstart + k];
      }
    }
  }

  /**
    The shift: a packed vector whose window [0, 3) holds [0, 0, 0], += a
    packed vector holding 5 at index 1, yields [5, 0, 0], not [0, 5, 0].
   */
  lemma PackedPackedShiftCounterexample()
    ensures PackedPackedAsWritten(PlusAssign, 0, [0, 0, 0], PackedView(3, 1, [5])) == [5, 0, 0]
    ensures ZipApply(PlusAssign, [0, 0, 0], PackedView(3, 1, [5]).ToDense()[0 .. 3]) == [0, 5, 0]
  {
    var e := PackedView(3, 1, [5]);
    assert e.ToDense()[0 .. 3] == [0, 5, 0];
  }

  /**
    The packed-packed kernel as written computes f(v, e) on v's window
    whenever the shift cannot happen: f lacks the right-zero identity, both
    windows start at the same index, or e stores nothing.
   */
  lemma PackedPackedAsWrittenAgrees(op: Op, vstart: nat, data: seq<int>, e: PackedView)
    requires e.Valid() && vstart + |data| <= e.size
    requires |e.values| != 0 ==> WindowIncludes(vstart, |data|, e)
    requires !RightZeroIdentity(op) || e.start == vstart || |e.values| == 0
    ensures PackedPackedAsWritten(op, vstart, data, e) == ZipApply(op, data, e.ToDense()[vstart .. vstart + |data|])
  {
    if RightZeroIdentity(op) {
      var r, d := PackedPackedAsWritten(op, vstart, data, e), e.ToDense()[vstart .. vstart + |data|];
      forall k | 0 <= k < |data| ensures r[k] == ZipApply(op, data, d)[k] {
        if k >= |e.values| {
          assert d[k] == 0;
        }
      }
    }
  }
}
