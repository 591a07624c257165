/**
  The class-count bookkeeping of the CART tree trainer: the count vector of
  the labels that reach a node, and the removal of zero counts before the
  cross entropy takes the logarithm of each class frequency.
 */
module CartCommon {

  /** The total of a vector of counts. */
  function Sum(s: seq<nat>): nat
  {
    if s == [] then 0 else s[0] + Sum(s[1..])
  }

  lemma {:induction false} SumConcat(a: seq<nat>, b: seq<nat>)
    ensures Sum(a + b) == Sum(a) + Sum(b)
  {
    if a == [] {
      assert a + b == b;
    } else {
      assert (a + b)[0] == a[0] && (a + b)[1..] == a[1..] + b;
      SumConcat(a[1..], b);
    }
  }

  /** Incrementing one count increments the total by one. */
  lemma {:induction false} SumIncrement(s: seq<nat>, l: nat)
    requires l < |s|
    ensures Sum(s[l := s[l] + 1]) == Sum(s) + 1
  {
    if l > 0 {
      assert s[l := s[l] + 1][1..] == s[1..][l - 1 := s[l] + 1];
      SumIncrement(s[1..], l - 1);
    }
  }

  /** Taking one count out of a vector leaves the remainder of the total. */
  lemma {:induction false} RemoveAt(b: seq<nat>, i: nat)
    requires i < |b|
    ensures Sum(b) == b[i] + Sum(b[..i] + b[i + 1..])
  {
    if i == 0 {
      assert b[..0] + b[1..] == b[1..];
    } else {
      var t, w := b[1..], b[1..][..i - 1] + b[1..][i..];
      RemoveAt(t, i - 1);
      assert b[..i] + b[i + 1..] == [b[0]] + w;
      assert ([b[0]] + w)[1..] == w;
    }
  }

  /** Taking one count out of a vector leaves the other counts. */
  lemma RemoveAtMultiset(b: seq<nat>, i: nat)
    requires i < |b|
    ensures multiset(b[..i] + b[i + 1..]) == multiset(b) - multiset{b[i]}
  {
    var p, q := b[..i], b[i + 1..];
    assert b == p + [b[i]] + q;
  }

  /** Rearranging counts keeps their total. */
  lemma {:induction false} SumPermutation(a: seq<nat>, b: seq<nat>)
    requires multiset(a) == multiset(b)
    ensures Sum(a) == Sum(b)
    decreases |a|
  {
    if a != [] {
      assert a[0] in multiset(b);
      var i :| 0 <= i < |b| && b[i] == a[0];
      RemoveAt(b, i);
      RemoveAtMultiset(b, i);
      assert a == [a[0]] + a[1..];
      assert Sum(a) == a[0] + Sum(a[1..]);
      assert multiset(a[1..]) == multiset(a) - multiset{a[0]};
      SumPermutation(a[1..], b[..i] + b[i + 1..]);
    } else {
      assert |b| == |multiset(b)|;
    }
  }

  /** The non-zero counts, in their order. */
  function NonZeros(s: seq<nat>): (r: seq<nat>)
    ensures forall k :: 0 <= k < |r| ==> r[k] != 0
  {
    if s == [] then [] else (if s[0] == 0 then [] else [s[0]]) + NonZeros(s[1..])
  }

  /** Dropping the zero counts keeps every non-zero count and nothing else. */
  lemma {:induction false} NonZerosMultiset(s: seq<nat>)
    ensures multiset(NonZeros(s)) == multiset(s)[0 := 0]
  {
    if s != [] {
      NonZerosMultiset(s[1..]);
      assert s == [s[0]] + s[1..];
    }
  }

  /** Dropping the zero counts keeps the total. */
  lemma {:induction false} NonZerosSum(s: seq<nat>)
    ensures Sum(NonZeros(s)) == Sum(s)
  {
    if s != [] {
      NonZerosSum(s[1..]);
      SumConcat(if s[0] == 0 then [] else [s[0]], NonZeros(s[1..]));
    }
  }

  /**
    The counts left after zero elimination still add up to the number of
    elements in the node, so the class frequencies c / n still sum to one.
   */
  lemma ZeroEliminationKeepsTotal(countVector: seq<nat>, c: seq<nat>)
    requires multiset(c) == multiset(countVector)[0 := 0]
    ensures Sum(c) == Sum(countVector)
  {
    NonZerosMultiset(countVector);
    SumPermutation(c, NonZeros(countVector));
    NonZerosSum(countVector);
  }

  /**
    createCountVector: one counter per class, incremented once per element
    with that label. `labels` are the labels of the elements of the node.
   */
  method CreateCountVector(labels: seq<nat>, labelCardinality: nat) returns (countVector: seq<nat>)
    requires forall i :: 0 <= i < |labels| ==> labels[i] < labelCardinality
    ensures |countVector| == labelCardinality
    ensures forall j :: 0 <= j < labelCardinality ==> countVector[j] == multiset(labels)[j]
    ensures Sum(countVector) == |labels|
  {
    var counts := new nat[labelCardinality](_ => 0);
    assert Sum(counts[..]) == 0 by {
      ZeroCountsSum(counts[..]);
    }
    for i := 0 to |labels|
      invariant forall j :: 0 <= j < labelCardinality ==> counts[j] == multiset(labels[..i])[j]
      invariant Sum(counts[..]) == i
    {
      var l := labels[i];
      SumIncrement(counts[..], l);
      counts[l] := counts[l] + 1;
      CountStep(labels, i);
    }
    assert labels[..|labels|] == labels;
    countVector := counts[..];
  }

  /** One more element counted: only the count of its label grows, by one. */
  lemma CountStep(labels: seq<nat>, i: nat)
    requires i < |labels|
    ensures forall j :: multiset(labels[..i + 1])[j] == multiset(labels[..i])[j] + (if j == labels[i] then 1 else 0)
  {
    assert labels[..i + 1] == labels[..i] + [labels[i]];
  }

  lemma {:induction false} ZeroCountsSum(s: seq<nat>)
    requires forall k :: 0 <= k < |s| ==> s[k] == 0
    ensures Sum(s) == 0
  {
    if s != [] {
      ZeroCountsSum(s[1..]);
    }
  }

  /**
    std::partition with the predicate `value != 0`: the non-zero counts are
    moved to the front, in place. Returns the partition point.
   */
  method PartitionNonZero(a: array<nat>) returns (pivot: nat)
    modifies a
    ensures pivot <= a.Length
    ensures multiset(a[..]) == multiset(old(a[..]))
    ensures forall k :: 0 <= k < pivot ==> a[k] != 0
    ensures forall k :: pivot <= k < a.Length ==> a[k] == 0
  {
    pivot := 0;
    for i := 0 to a.Length
      invariant pivot <= i
      invariant multiset(a[..]) == multiset(old(a[..]))
      invariant forall k :: 0 <= k < pivot ==> a[k] != 0
      invariant forall k :: pivot <= k < i ==> a[k] == 0
    {
      if a[i] != 0 {
        Swap(a, pivot, i);
        pivot := pivot + 1;
      }
    }
  }

  /** std::iter_swap: exchange two elements in place, which keeps the multiset of counts. */
  method Swap(a: array<nat>, i: nat, j: nat)
    requires i < a.Length && j < a.Length
    modifies a
    ensures a[i] == old(a[j]) && a[j] == old(a[i])
    ensures forall k :: 0 <= k < a.Length && k != i && k != j ==> a[k] == old(a[k])
    ensures multiset(a[..]) == multiset(old(a[..]))
  {
    a[i], a[j] := a[j], a[i];
  }

  /**
    The zero-count elimination at the head of crossEntropy: copy the count
    vector, partition the copy so the non-zero counts come first, and resize
    it to the partition point. The input is not changed.
   */
  method EliminateZeroCounts(countVector: seq<nat>) returns (c: seq<nat>)
    ensures multiset(c) == multiset(countVector)[0 := 0]
    ensures forall k :: 0 <= k < |c| ==> c[k] != 0
  {
    var copy := new nat[|countVector|](i requires 0 <= i < |countVector| => countVector[i]);
    assert copy[..] == countVector;
    var pivot := PartitionNonZero(copy);
    c := copy[..pivot];
    assert copy[..] == c + copy[pivot..];
    ZerosOnly(copy[pivot..]);
  }

  lemma {:induction false} ZerosOnly(z: seq<nat>)
    requires forall k :: 0 <= k < |z| ==> z[k] == 0
    ensures multiset(z)[0 := 0] == multiset{}
  {
    if z != [] {
      assert z == [0] + z[1..];
      ZerosOnly(z[1..]);
    }
  }
}
