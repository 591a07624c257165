/**
  The element-wise update functors that the fused vector kernels are
  instantiated with: a functor f updates a destination element x with a
  source element y, x := f(x, y).
 */
module Functional {

  /**
    The assignment functors: plain assignment (x := y) and the three
    arithmetic updates x += y, x -= y and x *= y.
   */
  datatype Op = ScalarAssign | PlusAssign | MinusAssign | MultiplyAssign

  /**
    The functor's flag `right_zero_identity`: applying it with a zero right
    operand leaves the destination element as it was, so the kernels may skip
    the elements on which the source is zero.
   */
  predicate RightZeroIdentity(op: Op)
  {
    op == PlusAssign || op == MinusAssign
  }

  /**
    The new value of a destination element x after the functor is applied with
    the source element y. With a zero right operand every functor either keeps
    x (it has the right-zero identity) or yields zero.
   */
  function Apply(op: Op, x: int, y: int): (r: int)
    ensures y == 0 && RightZeroIdentity(op) ==> r == x
    ensures y == 0 && !RightZeroIdentity(op) ==> r == 0
  {
    match op
    case ScalarAssign => y
    case PlusAssign => x + y
    case MinusAssign => x - y
    case MultiplyAssign => x * y
  }

  /** The flag is exact: it holds precisely for the functors that keep x when y is zero. */
  lemma RightZeroIdentityExact(op: Op)
    ensures RightZeroIdentity(op) <==> forall x :: Apply(op, x, 0) == x
  {
    if !RightZeroIdentity(op) {
      assert Apply(op, 1, 0) != 1;
    }
  }

  /** The element-wise combination of two vectors of equal length. */
  function ZipApply(op: Op, xs: seq<int>, ys: seq<int>): (r: seq<int>)
    requires |xs| == |ys|
    ensures |r| == |xs|
  {
    seq(|xs|, i requires 0 <= i < |xs| => Apply(op, xs[i], ys[i]))
  }
}
