/**
  The vector assignment kernels: plain copies v := e and fused updates
  v := f(v, e) between a destination v and a source expression e of equal
  logical length, one kernel per pair of storage layouts, and the
  dispatchers that pick the kernel from the two layouts.

  Destinations are updated in place: a dense vector is an array, a packed
  vector writes into the array of its window, a sparse vector changes its
  list of stored elements. Sources are read-only values.
 */
module VectorAssign {
  import opened Functional
  import opened Layouts
  import opened Containers
  import opened SparseMerge

  /** A destination vector, tagged with its storage layout. */
  datatype Target =
    | DenseTarget(dense: array<int>)
    | PackedTarget(packed: PackedVector)
    | SparseTarget(sparse: SparseVector)

  /** A source vector expression, tagged with its storage layout. */
  datatype Source =
    | DenseSource(values: seq<int>)
    | PackedSource(view: PackedView)
    | SparseSource(entries: SparseView)

  /**
    Whether an operand of a sparse-sparse update is a named vector container
    or an expression that may share storage with the other operand.
   */
  datatype Origin = Container | Proxy

  /** The storage a kernel may write. */
  function Footprint(v: Target): set<object>
  {
    match v
    case DenseTarget(a) => {a}
    case PackedTarget(p) => {p.data}
    case SparseTarget(s) => {s}
  }

  function TargetSize(v: Target): nat
  {
    match v
    case DenseTarget(a) => a.Length
    case PackedTarget(p) => p.size
    case SparseTarget(s) => s.size
  }

  ghost predicate TargetValid(v: Target)
    reads Footprint(v)
  {
    match v
    case DenseTarget(_) => true
    case PackedTarget(p) => p.Valid()
    case SparseTarget(s) => s.Valid()
  }

  /** The logical value of a destination: its `size` elements, zeros included. */
  function TargetValue(v: Target): (d: seq<int>)
    requires TargetValid(v)
    reads Footprint(v)
    ensures |d| == TargetSize(v)
  {
    match v
    case DenseTarget(a) => a[..]
    case PackedTarget(p) => p.View().ToDense()
    case SparseTarget(s) => s.View().ToDense()
  }

  function SourceSize(e: Source): nat
  {
    match e
    case DenseSource(d) => |d|
    case PackedSource(p) => p.size
    case SparseSource(s) => s.size
  }

  predicate SourceValid(e: Source)
  {
    match e
    case DenseSource(_) => true
    case PackedSource(p) => p.Valid()
    case SparseSource(s) => s.Valid()
  }

  /** The logical value of a source expression. */
  function SourceValue(e: Source): (d: seq<int>)
    requires SourceValid(e)
    ensures |d| == SourceSize(e)
  {
    match e
    case DenseSource(d) => d
    case PackedSource(p) => p.ToDense()
    case SparseSource(s) => s.ToDense()
  }

  /**
    The layout pairs a kernel exists for: dense from anything, packed from
    packed, sparse from dense or sparse.
   */
  predicate Supported(v: Target, e: Source)
  {
    (v.PackedTarget? ==> e.PackedSource?) && (v.SparseTarget? ==> !e.PackedSource?)
  }

  /** The packed-packed layout check: a non-empty source window lies inside the destination window. */
  predicate PackedCompatible(v: Target, e: Source)
  {
    v.PackedTarget? && e.PackedSource? && |e.view.values| != 0 ==>
      WindowIncludes(v.packed.start, v.packed.data.Length, e.view)
  }

  ////////////////////////////////////////////////////////////////////////
  // assign<F>(v, t): combine every stored element with a scalar
  ////////////////////////////////////////////////////////////////////////

  /** x := f(x, t) on every element of an array of stored values. */
  method ApplyScalarToStorage(a: array<int>, op: Op, t: int)
    modifies a
    ensures forall i :: 0 <= i < a.Length ==> a[i] == Apply(op, old(a[i]), t)
  {
    for i := 0 to a.Length
      invariant forall k :: 0 <= k < i ==> a[k] == Apply(op, old(a[k]), t)
      invariant forall k :: i <= k < a.Length ==> a[k] == old(a[k])
    {
      a[i] := Apply(op, a[i], t);
    }
  }

  /**
    The scalar kernel walks the destination's own iterator: every element of a
    dense vector, the window of a packed vector, the stored elements of a
    sparse vector (whose other elements stay zero).
   */
  method AssignScalar(v: Target, op: Op, t: int)
    requires TargetValid(v)
    modifies Footprint(v)
    ensures TargetValid(v)
    ensures v.DenseTarget? ==>
      forall i :: 0 <= i < v.dense.Length ==> v.dense[i] == Apply(op, old(v.dense[i]), t)
    ensures v.PackedTarget? ==>
      forall k :: 0 <= k < v.packed.data.Length ==> v.packed.data[k] == Apply(op, old(v.packed.data[k]), t)
    ensures v.SparseTarget? ==> v.sparse.entries == UpdateEntries(op, old(v.sparse.entries), t)
  {
    match v
    case DenseTarget(a) =>
      ApplyScalarToStorage(a, op, t);
    case PackedTarget(p) =>
      ApplyScalarToStorage(p.data, op, t);
    case SparseTarget(s) =>
      ghost var es := s.entries;
      for it := 0 to |s.entries|
        invariant s.Valid() && |s.entries| == |es|
        invariant forall j :: 0 <= j < it ==> s.entries[j] == UpdateEntries(op, es, t)[j]
        invariant forall j :: it <= j < |es| ==> s.entries[j] == es[j]
      {
        s.ApplyAt(it, op, t);
      }
  }

  ////////////////////////////////////////////////////////////////////////
  // Plain assignment v := e
  ////////////////////////////////////////////////////////////////////////

  /** clear() on dense storage: every element becomes zero. */
  method ClearStorage(a: array<int>)
    modifies a
    ensures forall i :: 0 <= i < a.Length ==> a[i] == 0
  {
    forall i | 0 <= i < a.Length {
      a[i] := 0;
    }
  }

  method AssignDenseDense(v: array<int>, e: seq<int>)
    requires v.Length == |e|
    modifies v
    ensures v[..] == e
  {
    for i := 0 to v.Length
      invariant forall k :: 0 <= k < i ==> v[k] == e[k]
    {
      v[i] := e[i];
    }
  }

  /**
    Dense from packed: zeros before the window, the window's values, zeros
    after it; an empty window clears v.
   */
  method AssignDensePacked(v: array<int>, e: PackedView)
    requires e.Valid() && v.Length == e.size
    modifies v
    ensures v[..] == e.ToDense()
    ensures |e.values| == 0 ==> forall i :: 0 <= i < v.Length ==> v[i] == 0
  {
    ghost var d := e.ToDense();
    if |e.values| == 0 {
      ClearStorage(v);
      return;
    }
    var i := 0;
    while i != e.start
      invariant 0 <= i <= e.start
      invariant forall k :: 0 <= k < i ==> v[k] == d[k]
    {
      v[i] := 0;
      i := i + 1;
    }
    var j := 0;
    while j != |e.values|
      invariant 0 <= j <= |e.values| && i == e.start + j
      invariant forall k :: 0 <= k < i ==> v[k] == d[k]
    {
      v[i] := e.values[j];
      i, j := i + 1, j + 1;
    }
    while i != v.Length
      invariant e.start + |e.values| <= i <= v.Length
      invariant forall k :: 0 <= k < i ==> v[k] == d[k]
    {
      v[i] := 0;
      i := i + 1;
    }
  }

  /**
    Packed from packed: an empty source clears v's window; otherwise the
    source window is copied into the part of v's window it covers and the
    rest of v's window keeps its old values.
   */
  method AssignPackedPacked(v: PackedVector, e: PackedView)
    requires v.Valid() && e.Valid() && v.size == e.size
    requires |e.values| != 0 ==> WindowIncludes(v.start, v.data.Length, e)
    modifies v.data
    ensures |e.values| == 0 ==> forall k :: 0 <= k < v.data.Length ==> v.data[k] == 0
    ensures |e.values| != 0 ==> forall k :: 0 <= k < v.data.Length ==>
      v.data[k] == if e.start <= v.start + k < e.start + |e.values|
                   then e.values[v.start + k - e.start] else old(v.data[k])
  {
    if |e.values| == 0 {
      ClearStorage(v.data);
      return;
    }
    var offset := e.start - v.start;
    var i, j := offset, 0;
    while j != |e.values|
      invariant 0 <= j <= |e.values| && i == offset + j
      invariant forall k :: 0 <= k < v.data.Length ==>
        v.data[k] == if offset <= k < i then e.values[k - offset] else old(v.data[k])
    {
      v.data[i] := e.values[j];
      i, j := i + 1, j + 1;
    }
  }

  /** Dense from sparse: clear v, then write every stored element of e. */
  method AssignDenseSparse(v: array<int>, e: SparseView)
    requires e.Valid() && v.Length == e.size
    modifies v
    ensures v[..] == e.ToDense()
  {
    ClearStorage(v);
    assert v[..] == Dense(e.size, e.entries[..0]);
    for k := 0 to |e.entries|
      invariant v[..] == Dense(e.size, e.entries[..k])
    {
      var x := e.entries[k];
      assert e.entries[..k + 1] == e.entries[..k] + [x];
      v[x.index] := x.value;
      forall i | 0 <= i < v.Length ensures v[i] == Dense(e.size, e.entries[..k + 1])[i] {
        ValueAtSnoc(e.entries[..k], x, i);
      }
    }
    assert e.entries[..|e.entries|] == e.entries;
  }

  /** Sparse from dense: v stores every index of e, zeros included, in increasing order. */
  method AssignSparseDense(v: SparseVector, e: seq<int>)
    requires v.size == |e|
    modifies v
    ensures v.Valid() && v.entries == DenseEntries(e)
    ensures v.View().ToDense() == e
  {
    v.Clear();
    var targetPos := 0;
    for i := 0 to |e|
      invariant v.Valid() && targetPos == i && |v.entries| == i
      invariant forall k :: 0 <= k < i ==> v.entries[k] == Entry(k, e[k])
    {
      targetPos := v.SetElement(targetPos, i, e[i]);
      targetPos := targetPos + 1;
    }
    DenseSparseRoundTrip(e);
  }

  /** Sparse from sparse: v stores exactly e's elements, in e's order. */
  method AssignSparseSparse(v: SparseVector, e: SparseView)
    requires e.Valid() && v.size == e.size
    modifies v
    ensures v.Valid() && v.entries == e.entries
  {
    v.Clear();
    var targetPos := 0;
    for k := 0 to |e.entries|
      invariant v.Valid() && targetPos == k && v.entries == e.entries[..k]
    {
      targetPos := v.SetElement(targetPos, e.entries[k].index, e.entries[k].value);
      assert e.entries[..k + 1] == e.entries[..k] + [e.entries[k]];
      targetPos := targetPos + 1;
    }
    assert e.entries[..|e.entries|] == e.entries;
  }

  /** A packed destination whose window is zero is the zero vector, which is what an empty source reads as. */
  lemma PackedClearedLogical(size: nat, start: nat, data: seq<int>, e: PackedView)
    requires start + |data| <= size && e.Valid() && e.size == size && |e.values| == 0
    requires forall k :: 0 <= k < |data| ==> data[k] == 0
    ensures PackedView(size, start, data).ToDense() == e.ToDense()
  {
  }

  /**
    A packed destination window holding the source's values over the source's
    window reads, as a logical vector, as the source there.
   */
  lemma PackedCopyLogical(size: nat, start: nat, data: seq<int>, e: PackedView)
    requires start + |data| <= size && e.Valid() && e.size == size
    requires WindowIncludes(start, |data|, e)
    requires forall k :: 0 <= k < |data| && e.start <= start + k < e.start + |e.values| ==>
      data[k] == e.values[start + k - e.start]
    ensures forall i :: e.start <= i < e.start + |e.values| ==>
      PackedView(size, start, data).ToDense()[i] == e.ToDense()[i]
  {
    forall i | e.start <= i < e.start + |e.values|
      ensures PackedView(size, start, data).ToDense()[i] == e.ToDense()[i]
    {
      assert data[i - start] == e.values[i - e.start];
    }
  }

  /**
    The plain dispatcher: after it, v holds e's logical value, except that a
    packed destination is only overwritten on e's window and keeps the rest
    of its own window.
   */
  method Assign(v: Target, e: Source)
    requires TargetValid(v) && SourceValid(e) && Supported(v, e)
    requires TargetSize(v) == SourceSize(e)
    requires PackedCompatible(v, e)
    modifies Footprint(v)
    ensures TargetValid(v)
    ensures !v.PackedTarget? ==> TargetValue(v) == SourceValue(e)
    ensures v.PackedTarget? && |e.view.values| == 0 ==> TargetValue(v) == SourceValue(e)
    ensures v.PackedTarget? ==> forall i :: e.view.start <= i < e.view.start + |e.view.values| ==>
      TargetValue(v)[i] == SourceValue(e)[i]
    ensures v.PackedTarget? && |e.view.values| != 0 ==> forall k :: 0 <= k < v.packed.data.Length ==>
      !(e.view.start <= v.packed.start + k < e.view.start + |e.view.values|) ==> v.packed.data[k] == old(v.packed.data[k])
    ensures v.SparseTarget? && e.DenseSource? ==> v.sparse.entries == DenseEntries(e.values)
    ensures v.SparseTarget? && e.SparseSource? ==> v.sparse.entries == e.entries.entries
  {
    match (v, e)
    case (DenseTarget(a), DenseSource(d)) =>
      AssignDenseDense(a, d);
    case (DenseTarget(a), PackedSource(p)) =>
      AssignDensePacked(a, p);
    case (DenseTarget(a), SparseSource(s)) =>
      AssignDenseSparse(a, s);
    case (SparseTarget(s), DenseSource(d)) =>
      AssignSparseDense(s, d);
    case (SparseTarget(s), SparseSource(es)) =>
      AssignSparseSparse(s, es);
    case (PackedTarget(p), PackedSource(pe)) =>
      AssignPackedPacked(p, pe);
      if |pe.values| == 0 {
        PackedClearedLogical(p.size, p.start, p.data[..], pe);
      } else {
        PackedCopyLogical(p.size, p.start, p.data[..], pe);
      }
  }

  ////////////////////////////////////////////////////////////////////////
  // Fused assignment v := f(v, e)
  ////////////////////////////////////////////////////////////////////////

  method AssignFusedDenseDense(v: array<int>, e: seq<int>, op: Op)
    requires v.Length == |e|
    modifies v
    ensures v[..] == ZipApply(op, old(v[..]), e)
  {
    for i := 0 to v.Length
      invariant forall k :: 0 <= k < i ==> v[k] == Apply(op, old(v[k]), e[k])
      invariant forall k :: i <= k < v.Length ==> v[k] == old(v[k])
    {
      v[i] := Apply(op, v[i], e[i]);
    }
  }

  // The three loops of the fused dense-packed and packed-packed kernels, on
  // the array of stored elements of the destination.

  /**
    The leading loop: f(x, 0) on a[lo .. hi), passing over the elements
    without updating them for functors with the right-zero identity, for
    which f(x, 0) is x anyway.
   */
  method ZeroUpdateRange(a: array<int>, lo: nat, hi: nat, op: Op)
    requires lo <= hi <= a.Length
    modifies a
    ensures forall k :: 0 <= k < a.Length ==>
      a[k] == if lo <= k < hi then Apply(op, old(a[k]), 0) else old(a[k])
  {
    for i := lo to hi
      invariant forall k :: 0 <= k < a.Length ==>
        a[k] == if lo <= k < i then Apply(op, old(a[k]), 0) else old(a[k])
    {
      if !RightZeroIdentity(op) {
        a[i] := Apply(op, a[i], 0);
      }
    }
  }

  /** The middle loop: f(a[lo + j], values[j]) for each stored value of the source. */
  method CombineRange(a: array<int>, lo: nat, values: seq<int>, op: Op)
    requires lo + |values| <= a.Length
    modifies a
    ensures forall k :: 0 <= k < a.Length ==>
      a[k] == if lo <= k < lo + |values| then Apply(op, old(a[k]), values[k - lo]) else old(a[k])
  {
    for j := 0 to |values|
      invariant forall k :: 0 <= k < a.Length ==>
        a[k] == if lo <= k < lo + j then Apply(op, old(a[k]), values[k - lo]) else old(a[k])
    {
      a[lo + j] := Apply(op, a[lo + j], values[j]);
    }
  }

  /** The trailing loop, as the kernel is written: every element from lo on becomes zero. */
  method ZeroFillFrom(a: array<int>, lo: nat)
    requires lo <= a.Length
    modifies a
    ensures forall k :: 0 <= k < a.Length ==> a[k] == if lo <= k then 0 else old(a[k])
  {
    for i := lo to a.Length
      invariant forall k :: 0 <= k < a.Length ==> a[k] == if lo <= k < i then 0 else old(a[k])
    {
      a[i] := 0;
    }
  }

  /**
    Dense updated with packed. Before the window f is applied with zero,
    unless f has the right-zero identity, in which case those elements are
    skipped but still passed over; inside the window f is applied with e's
    values; after it the elements are set to zero, as the kernel is written, which
    is f(x, 0) for every functor without the right-zero identity, the only
    ones for which that loop runs.
   */
  method AssignFusedDensePacked(v: array<int>, e: PackedView, op: Op)
    requires e.Valid() && v.Length == e.size
    modifies v
    ensures v[..] == ZipApply(op, old(v[..]), e.ToDense())
  {
    ghost var d := e.ToDense();
    var i := 0;
    if |e.values| != 0 {
      ZeroUpdateRange(v, 0, e.start, op);
      CombineRange(v, e.start, e.values, op);
      i := e.start + |e.values|;
    }
    if !RightZeroIdentity(op) {
      ZeroFillFrom(v, i);
    }
    assert forall k :: 0 <= k < v.Length ==> v[k] == Apply(op, old(v[k]), d[k]);
  }

  /**
    Packed updated with packed: the same three loops as dense-packed over v's
    stored window, whose element k holds index v.start + k; the elements
    outside v's window stay zero.
   */
  method AssignFusedPackedPacked(v: PackedVector, e: PackedView, op: Op)
    requires v.Valid() && e.Valid() && v.size == e.size
    requires |e.values| != 0 ==> WindowIncludes(v.start, v.data.Length, e)
    modifies v.data
    ensures v.data[..] == ZipApply(op, old(v.data[..]), e.ToDense()[v.start .. v.start + v.data.Length])
  {
    ghost var d := e.ToDense()[v.start .. v.start + v.data.Length];
    var i := 0;
    if |e.values| != 0 {
      var offset := e.start - v.start;
      ZeroUpdateRange(v.data, 0, offset, op);
      CombineRange(v.data, offset, e.values, op);
      i := offset + |e.values|;
    }
    if !RightZeroIdentity(op) {
      ZeroFillFrom(v.data, i);
    }
    assert forall k :: 0 <= k < v.data.Length ==> v.data[k] == Apply(op, old(v.data[k]), d[k]);
  }

  /**
    Dense updated with sparse: f is applied at the indices e stores and at no
    other index, whatever the functor.
   */
  method AssignFusedDenseSparse(v: array<int>, e: SparseView, op: Op)
    requires e.Valid() && v.Length == e.size
    modifies v
    ensures forall i :: 0 <= i < v.Length ==>
      v[i] == if i in Indices(e.entries) then Apply(op, old(v[i]), ValueAt(e.entries, i)) else old(v[i])
  {
    for k := 0 to |e.entries|
      invariant forall i :: 0 <= i < v.Length ==>
        v[i] == if i in Indices(e.entries[..k]) then Apply(op, old(v[i]), ValueAt(e.entries, i)) else old(v[i])
    {
      var x := e.entries[k];
      assert e.entries[..k + 1] == e.entries[..k] + [x];
      IndicesSnoc(e.entries[..k], x);
      ValueAtStored(e.entries, k);
      assert x.index !in Indices(e.entries[..k]) by {
        forall j | 0 <= j < k ensures e.entries[..k][j].index != x.index {
          assert e.entries[j].index < x.index;
        }
      }
      v[x.index] := Apply(op, v[x.index], x.value);
    }
    assert e.entries[..|e.entries|] == e.entries;
  }

  /**
    The state of the sparse-dense loop before index i: the first i positions
    of vs hold every index below i with its final value f(old value, e[i]);
    after them come the old elements not consumed yet, olds[kv..], whose
    indices are all at least i.
   */
  ghost predicate FillProgress(op: Op, e: seq<int>, vs: seq<Entry>, i: nat, olds: seq<Entry>, kv: nat)
  {
    WellFormed(|e|, vs) && WellFormed(|e|, olds) && i <= |e| && kv <= |olds|
    && |vs| == i + (|olds| - kv)
    && (forall k :: 0 <= k < i ==> vs[k] == Entry(k, Apply(op, ValueAt(olds, k), e[k])))
    && vs[i..] == olds[kv..]
    && (forall j :: 0 <= j < kv ==> olds[j].index < i)
    && (kv < |olds| ==> i <= olds[kv].index)
  }

  lemma FillStart(op: Op, e: seq<int>, olds: seq<Entry>)
    requires WellFormed(|e|, olds)
    ensures FillProgress(op, e, olds, 0, olds, 0)
  {
    assert olds[0..] == olds;
  }

  /** When the iterator is not at index i, i is not stored and the next stored index is above i. */
  lemma FillGap(op: Op, e: seq<int>, vs: seq<Entry>, i: nat, olds: seq<Entry>, kv: nat)
    requires FillProgress(op, e, vs, i, olds, kv) && i < |e|
    requires i == |vs| || vs[i].index != i
    ensures i !in Indices(olds)
    ensures i < |vs| ==> i < vs[i].index
    ensures i > 0 ==> vs[i - 1].index < i
  {
    forall j | 0 <= j < |olds| ensures olds[j].index != i {
      if kv <= j {
        assert vs[i] == olds[kv];
        if j > kv {
          assert olds[kv].index < olds[j].index;
        }
      }
    }
    if i < |vs| {
      assert vs[i] == olds[kv];
    }
  }

  /** A missing index is inserted with zero and then updated: f(0, e[i]). */
  lemma FillInsertStep(op: Op, e: seq<int>, before: seq<Entry>, i: nat, olds: seq<Entry>, kv: nat, after: seq<Entry>)
    requires FillProgress(op, e, before, i, olds, kv) && i < |e|
    requires i == |before| || before[i].index != i
    requires after == before[..i] + [Entry(i, Apply(op, 0, e[i]))] + before[i..]
    requires WellFormed(|e|, after)
    ensures FillProgress(op, e, after, i + 1, olds, kv)
  {
    FillGap(op, e, before, i, olds, kv);
    ValueAtAbsent(olds, i);
    assert after[i + 1..] == before[i..];
    if kv < |olds| {
      assert olds[kv].index != i;
    }
  }

  /** A stored index is updated in place: f(x, e[i]). */
  lemma FillUpdateStep(op: Op, e: seq<int>, before: seq<Entry>, i: nat, olds: seq<Entry>, kv: nat, after: seq<Entry>)
    requires FillProgress(op, e, before, i, olds, kv) && i < |e|
    requires i < |before| && before[i].index == i
    requires after == before[i := Entry(i, Apply(op, before[i].value, e[i]))]
    requires WellFormed(|e|, after)
    ensures FillProgress(op, e, after, i + 1, olds, kv + 1)
  {
    assert before[i] == olds[kv];
    ValueAtStored(olds, kv);
    assert after[i + 1..] == olds[kv + 1..];
    if kv + 1 < |olds| {
      assert olds[kv].index < olds[kv + 1].index;
    }
  }

  /** After the last index every index is stored with its final value. */
  lemma FillEnd(op: Op, e: seq<int>, vs: seq<Entry>, olds: seq<Entry>, kv: nat)
    requires FillProgress(op, e, vs, |e|, olds, kv)
    ensures vs == DenseEntries(ZipApply(op, Dense(|e|, olds), e))
  {
    assert kv == |olds|;
  }

  /**
    Sparse updated with dense: every index 0 .. size-1 ends up stored, in
    order; a missing index is inserted with value zero before f is applied.
   */
  method AssignFusedSparseDense(v: SparseVector, e: seq<int>, op: Op)
    requires v.Valid() && v.size == |e|
    modifies v
    ensures v.Valid()
    ensures v.entries == DenseEntries(ZipApply(op, Dense(v.size, old(v.entries)), e))
  {
    ghost var olds := v.entries;
    ghost var kv := 0;
    FillStart(op, e, olds);
    var it := 0;
    for i := 0 to |e|
      invariant it == i && FillProgress(op, e, v.entries, i, olds, kv)
    {
      kv := FillIndex(v, it, e, op, olds, kv);
      it := it + 1;
    }
    FillEnd(op, e, v.entries, olds, kv);
  }

  /** One pass of the sparse-dense loop: insert index i when it is missing, then f(*it, e[i]). */
  method FillIndex(v: SparseVector, i: nat, e: seq<int>, op: Op, ghost olds: seq<Entry>, ghost kv0: nat)
    returns (ghost kv: nat)
    requires v.size == |e| && i < |e| && FillProgress(op, e, v.entries, i, olds, kv0)
    modifies v
    ensures FillProgress(op, e, v.entries, i + 1, olds, kv)
  {
    ghost var before := v.entries;
    if i == |v.entries| || v.entries[i].index != i {
      FillGap(op, e, before, i, olds, kv0);
      var at := v.SetElement(i, i, 0);
      v.ApplyAt(at, op, e[i]);
      FillInsertStep(op, e, before, i, olds, kv0, v.entries);
      kv := kv0;
    } else {
      v.ApplyAt(i, op, e[i]);
      FillUpdateStep(op, e, before, i, olds, kv0, v.entries);
      kv := kv0 + 1;
    }
  }

  /**
    assign_sparse: the in-place two-pointer merge of e's stored elements into
    v's. Elements only v stores get f(x, 0); elements only e stores are
    inserted with zero and then get f(0, y); common elements get f(x, y).
   */
  method AssignSparse(v: SparseVector, e: SparseView, op: Op)
    requires v.Valid() && e.Valid() && v.size == e.size
    modifies v
    ensures v.Valid()
    ensures v.entries == Merge(op, old(v.entries), e.entries)
  {
    ghost var target := Merge(op, v.entries, e.entries);
    MergeProgressStart(op, v.size, v.entries, e.entries);
    var it, ite := MergeBoth(v, e, op, target);
    it := MergeRemainingOfV(v, it, e.entries, ite, op, target);
    MergeRemainingOfE(v, it, e, ite, op, target);
  }

  /** The while loop of assign_sparse: both lists still have elements. */
  method MergeBoth(v: SparseVector, e: SparseView, op: Op, ghost target: seq<Entry>) returns (it: nat, ite: nat)
    requires e.Valid() && v.size == e.size
    requires MergeProgress(op, v.size, v.entries, 0, e.entries, 0, target)
    modifies v
    ensures MergeProgress(op, v.size, v.entries, it, e.entries, ite, target)
    ensures it == |v.entries| || ite == |e.entries|
  {
    var es := e.entries;
    it, ite := 0, 0;
    while it != |v.entries| && ite != |es|
      invariant MergeProgress(op, v.size, v.entries, it, es, ite, target)
      decreases |v.entries| - it + 2 * (|es| - ite)
    {
      it, ite := MergeStep(v, it, es, ite, op, target);
    }
  }

  /** One pass of the while loop of assign_sparse: one more element of v becomes final. */
  method MergeStep(v: SparseVector, it0: nat, es: seq<Entry>, ite0: nat, op: Op, ghost target: seq<Entry>)
    returns (it: nat, ite: nat)
    requires StrictlyIncreasing(es) && forall j :: 0 <= j < |es| ==> es[j].index < v.size
    requires MergeProgress(op, v.size, v.entries, it0, es, ite0, target)
    requires it0 < |v.entries| && ite0 < |es|
    modifies v
    ensures MergeProgress(op, v.size, v.entries, it, es, ite, target)
    ensures |v.entries| - it + 2 * (|es| - ite) < old(|v.entries|) - it0 + 2 * (|es| - ite0)
  {
    var x, y := v.entries[it0], es[ite0];
    if x.index == y.index {
      UpdateCommon(v, it0, es, ite0, op, target);
      it, ite := it0 + 1, ite0 + 1;
    } else if x.index < y.index {
      UpdateOwn(v, it0, es, ite0, op, target);
      it, ite := it0 + 1, ite0;
    } else {
      InsertFromSource(v, it0, es, ite0, op, target);
      it, ite := it0 + 1, ite0 + 1;
    }
  }

  /** Both store the index: *it := f(*it, *ite). */
  method UpdateCommon(v: SparseVector, it: nat, es: seq<Entry>, ite: nat, op: Op, ghost target: seq<Entry>)
    requires StrictlyIncreasing(es)
    requires MergeProgress(op, v.size, v.entries, it, es, ite, target)
    requires it < |v.entries| && ite < |es| && v.entries[it].index == es[ite].index
    modifies v
    ensures MergeProgress(op, v.size, v.entries, it + 1, es, ite + 1, target)
    ensures |v.entries| == old(|v.entries|)
  {
    ghost var before := v.entries;
    v.ApplyAt(it, op, es[ite].value);
    MergeStepBoth(op, v.size, before, it, es, ite, v.entries, target);
  }

  /** Only v stores the index (or e is exhausted): *it := f(*it, 0). */
  method UpdateOwn(v: SparseVector, it: nat, es: seq<Entry>, ite: nat, op: Op, ghost target: seq<Entry>)
    requires MergeProgress(op, v.size, v.entries, it, es, ite, target)
    requires it < |v.entries| && (ite == |es| || v.entries[it].index < es[ite].index)
    modifies v
    ensures MergeProgress(op, v.size, v.entries, it + 1, es, ite, target)
    ensures |v.entries| == old(|v.entries|)
  {
    ghost var before := v.entries;
    v.ApplyAt(it, op, 0);
    MergeStepLeft(op, v.size, before, it, es, ite, v.entries, target);
  }

  /** Only e stores the index (or v is exhausted): set_element(it, index, 0), then f(0, *ite). */
  method InsertFromSource(v: SparseVector, it: nat, es: seq<Entry>, ite: nat, op: Op, ghost target: seq<Entry>)
    requires StrictlyIncreasing(es) && forall j :: 0 <= j < |es| ==> es[j].index < v.size
    requires MergeProgress(op, v.size, v.entries, it, es, ite, target)
    requires ite < |es| && (it == |v.entries| || es[ite].index < v.entries[it].index)
    modifies v
    ensures MergeProgress(op, v.size, v.entries, it + 1, es, ite + 1, target)
    ensures |v.entries| == old(|v.entries|) + 1
  {
    ghost var before := v.entries;
    var y := es[ite];
    var at := v.SetElement(it, y.index, 0);
    v.ApplyAt(at, op, y.value);
    MergeStepRight(op, v.size, before, it, es, ite, v.entries, target);
  }

  /** The first trailing loop of assign_sparse: f(x, 0) on the elements of v not reached yet. */
  method MergeRemainingOfV(v: SparseVector, it0: nat, es: seq<Entry>, ite: nat, op: Op, ghost target: seq<Entry>)
    returns (it: nat)
    requires MergeProgress(op, v.size, v.entries, it0, es, ite, target)
    requires it0 == |v.entries| || ite == |es|
    modifies v
    ensures MergeProgress(op, v.size, v.entries, it, es, ite, target) && it == |v.entries|
  {
    it := it0;
    while it != |v.entries|
      invariant MergeProgress(op, v.size, v.entries, it, es, ite, target)
      invariant it == |v.entries| || ite == |es|
    {
      UpdateOwn(v, it, es, ite, op, target);
      it := it + 1;
    }
  }

  /** The second trailing loop of assign_sparse: append e's remaining elements to v. */
  method MergeRemainingOfE(v: SparseVector, it0: nat, e: SparseView, ite0: nat, op: Op, ghost target: seq<Entry>)
    requires e.Valid() && v.size == e.size
    requires MergeProgress(op, v.size, v.entries, it0, e.entries, ite0, target) && it0 == |v.entries|
    modifies v
    ensures v.Valid() && v.entries == target
  {
    var es := e.entries;
    var it: nat, ite: nat := it0, ite0;
    while ite != |es|
      invariant MergeProgress(op, v.size, v.entries, it, es, ite, target) && it == |v.entries|
    {
      InsertFromSource(v, it, es, ite, op, target);
      ite := ite + 1;
      it := it + 1;
    }
    MergeProgressEnd(op, v.size, v.entries, es, target);
  }

  /**
    Sparse updated with sparse. When either operand is a named container the
    merge runs in place; otherwise e may share storage with v, so the merge
    runs on a temporary copy of v, v is cleared and the temporary is copied
    back. Both routes give the same merged list.
   */
  method AssignFusedSparseSparse(v: SparseVector, vOrigin: Origin, e: SparseView, eOrigin: Origin, op: Op)
    requires v.Valid() && e.Valid() && v.size == e.size
    modifies v
    ensures v.Valid()
    ensures v.entries == Merge(op, old(v.entries), e.entries)
  {
    if vOrigin == Container || eOrigin == Container {
      AssignSparse(v, e, op);
    } else {
      var temporary := new SparseVector(v.size, v.entries);
      AssignSparse(temporary, e, op);
      v.Clear();
      AssignSparseSparse(v, temporary.View());
    }
  }

  /**
    A packed window updated element by element with the matching slice of a
    source that is zero outside the window reads, as a whole vector, as the
    element-wise update of the two logical vectors.
   */
  lemma PackedFusedLogical(op: Op, size: nat, start: nat, before: seq<int>, after: seq<int>, d: seq<int>)
    requires start + |before| <= size && |d| == size
    requires after == ZipApply(op, before, d[start .. start + |before|])
    requires forall i :: 0 <= i < size && !(start <= i < start + |before|) ==> d[i] == 0
    ensures PackedView(size, start, after).ToDense() == ZipApply(op, PackedView(size, start, before).ToDense(), d)
  {
    var lhs := PackedView(size, start, after).ToDense();
    var rhs := ZipApply(op, PackedView(size, start, before).ToDense(), d);
    forall i | 0 <= i < size ensures lhs[i] == rhs[i] {
      if start <= i < start + |before| {
        assert d[start .. start + |before|][i - start] == d[i];
      }
    }
  }

  /**
    The fused dispatcher: v becomes f(v, e) element by element on the logical
    vectors, for every layout pair, except that dense-sparse applies f only
    at the indices e stores and leaves the others untouched, which is
    f(v, 0) only for functors with the right-zero identity.
   */
  method AssignFused(v: Target, vOrigin: Origin, e: Source, eOrigin: Origin, op: Op)
    requires TargetValid(v) && SourceValid(e) && Supported(v, e)
    requires TargetSize(v) == SourceSize(e)
    requires PackedCompatible(v, e)
    modifies Footprint(v)
    ensures TargetValid(v)
    ensures !(v.DenseTarget? && e.SparseSource?) || RightZeroIdentity(op) ==>
      TargetValue(v) == ZipApply(op, old(TargetValue(v)), SourceValue(e))
    ensures v.DenseTarget? && e.SparseSource? ==>
      forall i :: 0 <= i < v.dense.Length && i !in Indices(e.entries.entries) ==> v.dense[i] == old(v.dense[i])
    ensures v.DenseTarget? && e.SparseSource? ==>
      forall i :: 0 <= i < v.dense.Length && i in Indices(e.entries.entries) ==>
        v.dense[i] == Apply(op, old(v.dense[i]), SourceValue(e)[i])
    ensures v.SparseTarget? && e.DenseSource? ==>
      v.sparse.entries == DenseEntries(ZipApply(op, Dense(v.sparse.size, old(v.sparse.entries)), e.values))
    ensures v.SparseTarget? && e.SparseSource? ==>
      v.sparse.entries == Merge(op, old(v.sparse.entries), e.entries.entries)
  {
    match (v, e)
    case (DenseTarget(a), DenseSource(d)) =>
      AssignFusedDenseDense(a, d, op);
    case (DenseTarget(a), PackedSource(p)) =>
      AssignFusedDensePacked(a, p, op);
    case (DenseTarget(a), SparseSource(s)) =>
      ghost var before := a[..];
      AssignFusedDenseSparse(a, s, op);
      assert forall i :: 0 <= i < a.Length ==> s.ToDense()[i] == ValueAt(s.entries, i);
      if RightZeroIdentity(op) {
        forall i | 0 <= i < a.Length ensures a[i] == Apply(op, before[i], s.ToDense()[i]) {
          if i !in Indices(s.entries) {
            ValueAtAbsent(s.entries, i);
          }
        }
      }
    case (SparseTarget(sv), DenseSource(d)) =>
      ghost var before := sv.entries;
      AssignFusedSparseDense(sv, d, op);
      DenseSparseRoundTrip(ZipApply(op, Dense(sv.size, before), d));
    case (SparseTarget(sv), SparseSource(s)) =>
      ghost var before := sv.entries;
      AssignFusedSparseSparse(sv, vOrigin, s, eOrigin, op);
      MergeDense(op, sv.size, before, s.entries);
    case (PackedTarget(p), PackedSource(pe)) =>
      ghost var before := p.data[..];
      AssignFusedPackedPacked(p, pe, op);
      PackedFusedLogical(op, p.size, p.start, before, p.data[..], pe.ToDense());
  }
}
