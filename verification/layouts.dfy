/**
  The three storage layouts of a vector of logical length `size`:
  dense (every index stored), sparse (a list of (index, value) pairs with
  strictly increasing indices) and packed (a contiguous window of stored
  values, zero outside it). Each layout has an abstract value: the dense
  sequence of its `size` logical elements.
 */
module Layouts {
  import opened Functional

  /** One stored element of a sparse vector. */
  datatype Entry = Entry(index: nat, value: int)

  /** The stored indices of a sparse vector appear in strictly increasing order. */
  predicate StrictlyIncreasing(es: seq<Entry>)
  {
    forall j, k :: 0 <= j < k < |es| ==> es[j].index < es[k].index
  }

  /** A sparse element list of a vector of length `size`. */
  predicate WellFormed(size: nat, es: seq<Entry>)
  {
    StrictlyIncreasing(es) && forall j :: 0 <= j < |es| ==> es[j].index < size
  }

  /** The set of indices a sparse element list stores. */
  function Indices(es: seq<Entry>): set<nat>
  {
    set j | 0 <= j < |es| :: es[j].index
  }

  /** The logical element at index i: the value stored for i, or zero. */
  function ValueAt(es: seq<Entry>, i: nat): int
  {
    if es == [] then 0
    else if es[0].index == i then es[0].value
    else ValueAt(es[1..], i)
  }

  /** The logical (dense) value of a sparse element list. */
  function Dense(size: nat, es: seq<Entry>): (d: seq<int>)
    ensures |d| == size
  {
    seq(size, i requires 0 <= i < size => ValueAt(es, i))
  }

  /** Every index of a dense vector stored, zeros included, in increasing order. */
  function DenseEntries(d: seq<int>): (es: seq<Entry>)
    ensures |es| == |d|
    ensures WellFormed(|d|, es)
    ensures forall i :: 0 <= i < |d| ==> es[i].index == i
  {
    seq(|d|, i requires 0 <= i < |d| => Entry(i, d[i]))
  }

  /** The stored values of a sparse list, each updated with f(value, t). */
  function UpdateEntries(op: Op, es: seq<Entry>, t: int): (r: seq<Entry>)
    ensures |r| == |es|
    ensures forall j :: 0 <= j < |es| ==> r[j].index == es[j].index
  {
    seq(|es|, j requires 0 <= j < |es| => Entry(es[j].index, Apply(op, es[j].value, t)))
  }

  /** A read-only sparse vector expression. */
  datatype SparseView = SparseView(size: nat, entries: seq<Entry>)
  {
    predicate Valid()
    {
      WellFormed(size, entries)
    }

    function ToDense(): (d: seq<int>)
      ensures |d| == size
    {
      Dense(size, entries)
    }
  }

  /** A read-only packed vector expression: `values` stored at [start, start + |values|). */
  datatype PackedView = PackedView(size: nat, start: nat, values: seq<int>)
  {
    predicate Valid()
    {
      start + |values| <= size
    }

    function ToDense(): (d: seq<int>)
      requires Valid()
      ensures |d| == size
    {
      seq(size, i requires 0 <= i < size =>
        if start <= i < start + |values| then values[i - start] else 0)
    }
  }

  /**
    The packed-packed kernels need the destination window [start, start + len)
    to be non-empty and to contain the source window.
   */
  predicate WindowIncludes(start: nat, len: nat, e: PackedView)
  {
    len != 0 && start <= e.start && e.start + |e.values| <= start + len
  }

  /** A stored element is what the logical vector holds at its index. */
  lemma {:induction false} ValueAtStored(es: seq<Entry>, k: nat)
    requires StrictlyIncreasing(es) && k < |es|
    ensures ValueAt(es, es[k].index) == es[k].value
  {
    if k > 0 {
      assert es[0].index < es[k].index;
      assert es[1..][k - 1] == es[k];
      ValueAtStored(es[1..], k - 1);
    }
  }

  /** An index that is not stored reads as zero. */
  lemma {:induction false} ValueAtAbsent(es: seq<Entry>, i: nat)
    requires i !in Indices(es)
    ensures ValueAt(es, i) == 0
  {
    if es != [] {
      assert es[0].index in Indices(es);
      forall x | x in Indices(es[1..]) ensures x in Indices(es) {
        var j :| 0 <= j < |es[1..]| && es[1..][j].index == x;
        assert es[j + 1].index == x;
      }
      ValueAtAbsent(es[1..], i);
    }
  }

  /** Appending an element with a larger index changes the logical vector at that index only. */
  lemma {:induction false} ValueAtSnoc(es: seq<Entry>, x: Entry, i: nat)
    requires forall j :: 0 <= j < |es| ==> es[j].index < x.index
    ensures ValueAt(es + [x], i) == if i == x.index then x.value else ValueAt(es, i)
  {
    if es == [] {
      assert [x][1..] == [];
    } else {
      assert (es + [x])[1..] == es[1..] + [x];
      if es[0].index != i {
        ValueAtSnoc(es[1..], x, i);
      }
    }
  }

  lemma IndicesCons(x: Entry, es: seq<Entry>)
    ensures Indices([x] + es) == {x.index} + Indices(es)
  {
    var s := [x] + es;
    forall i | i in Indices(s) ensures i in {x.index} + Indices(es) {
      var j :| 0 <= j < |s| && s[j].index == i;
      if j > 0 {
        assert es[j - 1].index == i;
      }
    }
    forall i | i in Indices(es) ensures i in Indices(s) {
      var j :| 0 <= j < |es| && es[j].index == i;
      assert s[j + 1].index == i;
    }
    assert s[0].index == x.index;
  }

  lemma IndicesSnoc(es: seq<Entry>, x: Entry)
    ensures Indices(es + [x]) == Indices(es) + {x.index}
  {
    var s := es + [x];
    forall i | i in Indices(s) ensures i in Indices(es) + {x.index} {
      var j :| 0 <= j < |s| && s[j].index == i;
      if j < |es| {
        assert es[j].index == i;
      }
    }
    forall i | i in Indices(es) ensures i in Indices(s) {
      var j :| 0 <= j < |es| && es[j].index == i;
      assert s[j].index == i;
    }
    assert s[|es|].index == x.index;
  }

  /**
    Storing every index of a dense vector and reading it back gives the same
    vector: the dense to sparse to dense round trip is exact.
   */
  lemma DenseSparseRoundTrip(d: seq<int>)
    ensures Dense(|d|, DenseEntries(d)) == d
  {
    var es := DenseEntries(d);
    forall i | 0 <= i < |d| ensures Dense(|d|, es)[i] == d[i] {
      ValueAtStored(es, i);
    }
  }

  /**
    Updating each stored value with f(value, t) updates the logical vector at
    the stored indices and leaves zeros elsewhere.
   */
  lemma UpdateEntriesDense(op: Op, es: seq<Entry>, t: int, i: nat)
    requires StrictlyIncreasing(es)
    ensures ValueAt(UpdateEntries(op, es, t), i)
         == if i in Indices(es) then Apply(op, ValueAt(es, i), t) else 0
  {
    var r := UpdateEntries(op, es, t);
    assert Indices(r) == Indices(es) by {
      forall x | x in Indices(r) ensures x in Indices(es) {
        var j :| 0 <= j < |r| && r[j].index == x;
        assert es[j].index == x;
      }
      forall x | x in Indices(es) ensures x in Indices(r) {
        var j :| 0 <= j < |es| && es[j].index == x;
        assert r[j].index == x;
      }
    }
    if i in Indices(es) {
      var k :| 0 <= k < |es| && es[k].index == i;
      ValueAtStored(es, k);
      ValueAtStored(r, k);
    } else {
      ValueAtAbsent(r, i);
    }
  }
}
