/**
  The destination vectors the kernels write into. A sparse vector keeps its
  stored elements in a list that `clear`, `set_element` and writes through an
  iterator change in place; a packed vector writes into the array that holds
  its window.
 */
module Containers {
  import opened Functional
  import opened Layouts

  /** A compressed sparse vector of logical length `size`. */
  class SparseVector {
    const size: nat
    var entries: seq<Entry>

    ghost predicate Valid()
      reads this
    {
      WellFormed(size, entries)
    }

    function View(): SparseView
      reads this
    {
      SparseView(size, entries)
    }

    constructor (size: nat, entries: seq<Entry>)
      requires WellFormed(size, entries)
      ensures Valid() && this.size == size && this.entries == entries
    {
      this.size := size;
      this.entries := entries;
    }

    /** clear(): no element stays stored, so the logical vector is zero. */
    method Clear()
      modifies this
      ensures Valid() && entries == []
    {
      entries := [];
    }

    /**
      set_element(pos, index, x): insert the element (index, x) in front of
      position pos and return the position of the new element. The callers
      always insert between the neighbours' indices, so the order is kept.
     */
    method SetElement(pos: nat, index: nat, x: int) returns (at: nat)
      requires Valid() && pos <= |entries| && index < size
      requires pos > 0 ==> entries[pos - 1].index < index
      requires pos < |entries| ==> index < entries[pos].index
      modifies this
      ensures Valid() && at == pos
      ensures entries == old(entries[..pos]) + [Entry(index, x)] + old(entries[pos..])
    {
      var e := entries[..pos] + [Entry(index, x)] + entries[pos..];
      forall j, k | 0 <= j < k < |e| ensures e[j].index < e[k].index {
        if k < pos {
          assert e[j] == entries[j] && e[k] == entries[k];
        } else if j > pos {
          assert e[j] == entries[j - 1] && e[k] == entries[k - 1];
        } else if j == pos {
          assert e[k] == entries[k - 1];
        } else if k == pos {
          assert e[j] == entries[j];
        } else {
          assert e[j] == entries[j] && e[k] == entries[k - 1];
        }
      }
      entries := e;
      at := pos;
    }

    /** f(*it, x) on the element at position pos: its index stays, its value is updated. */
    method ApplyAt(pos: nat, op: Op, x: int)
      requires Valid() && pos < |entries|
      modifies this
      ensures Valid()
      ensures entries == old(entries[pos := Entry(entries[pos].index, Apply(op, entries[pos].value, x))])
    {
      entries := entries[pos := Entry(entries[pos].index, Apply(op, entries[pos].value, x))];
    }
  }

  /** A packed vector of logical length `size` whose window [start, start + data.Length) is stored in `data`. */
  class PackedVector {
    const size: nat
    const start: nat
    const data: array<int>

    predicate Valid()
    {
      start + data.Length <= size
    }

    function View(): PackedView
      reads data
    {
      PackedView(size, start, data[..])
    }

    constructor (size: nat, start: nat, data: array<int>)
      requires start + data.Length <= size
      ensures Valid() && this.size == size && this.start == start && this.data == data
    {
      this.size := size;
      this.start := start;
      this.data := data;
    }
  }
}
