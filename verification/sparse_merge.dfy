/**
  The value a two-pointer merge of two sparse element lists computes: the
  union of both index lists in increasing order, each element combined as
  f(destination value or 0, source value or 0).
 */
module SparseMerge {
  import opened Functional
  import opened Layouts

  /** The merged list of v := f(v, e) over the sparse lists vs (of v) and es (of e). */
  function Merge(op: Op, vs: seq<Entry>, es: seq<Entry>): seq<Entry>
    decreases |vs| + |es|
  {
    if vs == [] && es == [] then []
    else if es == [] || (vs != [] && vs[0].index < es[0].index) then
      [Entry(vs[0].index, Apply(op, vs[0].value, 0))] + Merge(op, vs[1..], es)
    else if vs == [] || es[0].index < vs[0].index then
      [Entry(es[0].index, Apply(op, 0, es[0].value))] + Merge(op, vs, es[1..])
    else
      [Entry(vs[0].index, Apply(op, vs[0].value, es[0].value))] + Merge(op, vs[1..], es[1..])
  }

  lemma IndicesTail(es: seq<Entry>)
    requires es != []
    ensures Indices(es) == {es[0].index} + Indices(es[1..])
  {
    assert es == [es[0]] + es[1..];
    IndicesCons(es[0], es[1..]);
  }

  /** The merged list stores exactly the indices stored by either operand. */
  lemma {:induction false} MergeIndices(op: Op, vs: seq<Entry>, es: seq<Entry>)
    ensures Indices(Merge(op, vs, es)) == Indices(vs) + Indices(es)
    decreases |vs| + |es|
  {
    var m := Merge(op, vs, es);
    if vs == [] && es == [] {
    } else if es == [] || (vs != [] && vs[0].index < es[0].index) {
      MergeIndices(op, vs[1..], es);
      IndicesCons(m[0], Merge(op, vs[1..], es));
      IndicesTail(vs);
    } else if vs == [] || es[0].index < vs[0].index {
      MergeIndices(op, vs, es[1..]);
      IndicesCons(m[0], Merge(op, vs, es[1..]));
      IndicesTail(es);
    } else {
      MergeIndices(op, vs[1..], es[1..]);
      IndicesCons(m[0], Merge(op, vs[1..], es[1..]));
      IndicesTail(vs);
      IndicesTail(es);
    }
  }

  /** Every index of es lies above b. */
  predicate Above(b: int, es: seq<Entry>)
  {
    forall j :: 0 <= j < |es| ==> b < es[j].index
  }

  /** In a strictly increasing list every index is at least the first, and the rest lie above it. */
  lemma HeadBelowTail(b: int, es: seq<Entry>)
    requires StrictlyIncreasing(es) && es != [] && b <= es[0].index
    ensures Above(es[0].index, es[1..])
    ensures b < es[0].index ==> Above(b, es)
  {
  }

  /** Every index of the merged list comes from one of the operands, so a common lower bound survives. */
  lemma {:induction false} MergeAbove(op: Op, b: int, vs: seq<Entry>, es: seq<Entry>)
    requires Above(b, vs) && Above(b, es)
    ensures Above(b, Merge(op, vs, es))
    decreases |vs| + |es|
  {
    if vs == [] && es == [] {
    } else if es == [] || (vs != [] && vs[0].index < es[0].index) {
      MergeAbove(op, b, vs[1..], es);
    } else if vs == [] || es[0].index < vs[0].index {
      MergeAbove(op, b, vs, es[1..]);
    } else {
      MergeAbove(op, b, vs[1..], es[1..]);
    }
  }

  /** A head below every index of a well-formed tail gives a well-formed list. */
  lemma ConsWellFormed(size: nat, x: Entry, rest: seq<Entry>)
    requires x.index < size && WellFormed(size, rest) && Above(x.index, rest)
    ensures WellFormed(size, [x] + rest)
  {
    var s := [x] + rest;
    forall j, k | 0 <= j < k < |s| ensures s[j].index < s[k].index {
      assert s[k] == rest[k - 1];
      if j > 0 {
        assert s[j] == rest[j - 1];
      }
    }
  }

  /** Merging two well-formed lists gives a well-formed list: strictly increasing, within the size. */
  lemma {:induction false} MergeWellFormed(op: Op, size: nat, vs: seq<Entry>, es: seq<Entry>)
    requires WellFormed(size, vs) && WellFormed(size, es)
    ensures WellFormed(size, Merge(op, vs, es))
    decreases |vs| + |es|
  {
    if vs == [] && es == [] {
    } else if es == [] || (vs != [] && vs[0].index < es[0].index) {
      var x := vs[0].index;
      HeadBelowTail(x, vs);
      if es != [] {
        HeadBelowTail(x, es);
      }
      MergeWellFormed(op, size, vs[1..], es);
      MergeAbove(op, x, vs[1..], es);
      ConsWellFormed(size, Entry(x, Apply(op, vs[0].value, 0)), Merge(op, vs[1..], es));
    } else if vs == [] || es[0].index < vs[0].index {
      var x := es[0].index;
      HeadBelowTail(x, es);
      if vs != [] {
        HeadBelowTail(x, vs);
      }
      MergeWellFormed(op, size, vs, es[1..]);
      MergeAbove(op, x, vs, es[1..]);
      ConsWellFormed(size, Entry(x, Apply(op, 0, es[0].value)), Merge(op, vs, es[1..]));
    } else {
      var x := vs[0].index;
      HeadBelowTail(x, vs);
      HeadBelowTail(x, es);
      MergeWellFormed(op, size, vs[1..], es[1..]);
      MergeAbove(op, x, vs[1..], es[1..]);
      ConsWellFormed(size, Entry(x, Apply(op, vs[0].value, es[0].value)), Merge(op, vs[1..], es[1..]));
    }
  }

  /** An index below the first stored index reads as zero. */
  lemma BelowHeadIsZero(es: seq<Entry>, i: nat)
    requires StrictlyIncreasing(es)
    requires es == [] || i < es[0].index
    ensures ValueAt(es, i) == 0
  {
    forall k | 0 <= k < |es| ensures es[k].index != i {
      if k > 0 {
        assert es[0].index < es[k].index;
      }
    }
    ValueAtAbsent(es, i);
  }

  /** At every index the merged list holds f(value of vs, value of es). */
  lemma {:induction false} MergeValueAt(op: Op, vs: seq<Entry>, es: seq<Entry>, i: nat)
    requires StrictlyIncreasing(vs) && StrictlyIncreasing(es)
    ensures ValueAt(Merge(op, vs, es), i) == Apply(op, ValueAt(vs, i), ValueAt(es, i))
    decreases |vs| + |es|
  {
    var m := Merge(op, vs, es);
    if vs == [] && es == [] {
    } else if es == [] || (vs != [] && vs[0].index < es[0].index) {
      assert m[1..] == Merge(op, vs[1..], es);
      if i == vs[0].index {
        BelowHeadIsZero(es, i);
      } else {
        MergeValueAt(op, vs[1..], es, i);
      }
    } else if vs == [] || es[0].index < vs[0].index {
      assert m[1..] == Merge(op, vs, es[1..]);
      if i == es[0].index {
        BelowHeadIsZero(vs, i);
      } else {
        MergeValueAt(op, vs, es[1..], i);
      }
    } else {
      assert m[1..] == Merge(op, vs[1..], es[1..]);
      if i != vs[0].index {
        MergeValueAt(op, vs[1..], es[1..], i);
      }
    }
  }

  /** The merge computes v := f(v, e) on the logical vectors. */
  lemma MergeDense(op: Op, size: nat, vs: seq<Entry>, es: seq<Entry>)
    requires StrictlyIncreasing(vs) && StrictlyIncreasing(es)
    ensures Dense(size, Merge(op, vs, es)) == ZipApply(op, Dense(size, vs), Dense(size, es))
  {
    forall i | 0 <= i < size
      ensures Dense(size, Merge(op, vs, es))[i] == ZipApply(op, Dense(size, vs), Dense(size, es))[i]
    {
      MergeValueAt(op, vs, es, i);
    }
  }

  /**
    The state of the in-place merge of es into vs: the first `it` elements of
    vs are final, and merging what is left of vs with es[ite..] completes the
    merged list `target`; the last final index lies below es[ite].
   */
  ghost predicate MergeProgress(op: Op, size: nat, vs: seq<Entry>, it: nat, es: seq<Entry>, ite: nat, target: seq<Entry>)
  {
    WellFormed(size, vs) && it <= |vs| && ite <= |es|
    && vs[..it] + Merge(op, vs[it..], es[ite..]) == target
    && (it > 0 && ite < |es| ==> vs[it - 1].index < es[ite].index)
  }

  lemma MergeProgressStart(op: Op, size: nat, vs: seq<Entry>, es: seq<Entry>)
    requires WellFormed(size, vs)
    ensures MergeProgress(op, size, vs, 0, es, 0, Merge(op, vs, es))
  {
    assert vs[0..] == vs && es[0..] == es;
  }

  lemma MergeProgressEnd(op: Op, size: nat, vs: seq<Entry>, es: seq<Entry>, target: seq<Entry>)
    requires MergeProgress(op, size, vs, |vs|, es, |es|, target)
    ensures vs == target
  {
    assert vs[..|vs|] == vs;
  }

  // The three steps of the in-place merge loop; each makes one more element final.

  /** Both lists store the next index: the element of v is updated with f(x, y). */
  lemma MergeStepBoth(op: Op, size: nat, before: seq<Entry>, it: nat, es: seq<Entry>, ite: nat,
                      after: seq<Entry>, target: seq<Entry>)
    requires MergeProgress(op, size, before, it, es, ite, target) && StrictlyIncreasing(es)
    requires it < |before| && ite < |es| && before[it].index == es[ite].index
    requires after == before[it := Entry(before[it].index, Apply(op, before[it].value, es[ite].value))]
    requires WellFormed(size, after)
    ensures MergeProgress(op, size, after, it + 1, es, ite + 1, target)
  {
    var vs, rs := before[it..], es[ite..];
    assert vs[1..] == after[it + 1..];
    assert rs[1..] == es[ite + 1..];
    assert Merge(op, vs, rs) == [after[it]] + Merge(op, after[it + 1..], es[ite + 1..]);
    assert after[..it + 1] == before[..it] + [after[it]];
  }

  /** Only v stores the next index (or e is exhausted): the element of v is updated with f(x, 0). */
  lemma MergeStepLeft(op: Op, size: nat, before: seq<Entry>, it: nat, es: seq<Entry>, ite: nat,
                      after: seq<Entry>, target: seq<Entry>)
    requires MergeProgress(op, size, before, it, es, ite, target)
    requires it < |before|
    requires ite == |es| || before[it].index < es[ite].index
    requires after == before[it := Entry(before[it].index, Apply(op, before[it].value, 0))]
    requires WellFormed(size, after)
    ensures MergeProgress(op, size, after, it + 1, es, ite, target)
  {
    var vs, rs := before[it..], es[ite..];
    assert vs[1..] == after[it + 1..];
    assert Merge(op, vs, rs) == [after[it]] + Merge(op, after[it + 1..], rs);
    assert after[..it + 1] == before[..it] + [after[it]];
  }

  /** Only e stores the next index (or v is exhausted): it is inserted into v with f(0, y). */
  lemma MergeStepRight(op: Op, size: nat, before: seq<Entry>, it: nat, es: seq<Entry>, ite: nat,
                       after: seq<Entry>, target: seq<Entry>)
    requires MergeProgress(op, size, before, it, es, ite, target) && StrictlyIncreasing(es)
    requires ite < |es|
    requires it == |before| || es[ite].index < before[it].index
    requires after == before[..it] + [Entry(es[ite].index, Apply(op, 0, es[ite].value))] + before[it..]
    requires WellFormed(size, after)
    ensures MergeProgress(op, size, after, it + 1, es, ite + 1, target)
  {
    var vs, rs := before[it..], es[ite..];
    assert rs[1..] == es[ite + 1..];
    assert after[it + 1..] == vs;
    assert Merge(op, vs, rs) == [after[it]] + Merge(op, vs, es[ite + 1..]);
    assert after[..it + 1] == before[..it] + [after[it]];
  }
}
