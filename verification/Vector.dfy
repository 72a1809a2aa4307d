/** The growing and shrinking array of Vector.c. Allocation succeeds, and an int capacity does not overflow. */
module Vector {

  const ENOENT: int := 2
  const VECTOR_INIT_CAPACITY: nat := 16

  predicate IsPow2(n: nat) { n == 1 || (n > 1 && n % 2 == 0 && IsPow2(n / 2)) }

  /** A power of two above one can be halved and doubled. */
  lemma HalvesAndDoubles(n: nat)
    requires IsPow2(n) && n >= 2
    ensures n % 2 == 0 && IsPow2(n / 2) && IsPow2(2 * n) && (n >= 4 ==> n / 4 * 4 == n)
  {
    assert (2 * n) / 2 == n;
    if n >= 4 { assert IsPow2(n / 2) && n / 2 > 1; }
  }

  function Abs(x: int): nat { if x < 0 then -x else x }

  /** The capacity after a deletion that leaves `total` elements: halved exactly when a quarter is left. */
  function Shrunk(total: nat, capacity: nat): nat {
    if total > 0 && total == capacity / 4 then capacity / 2 else capacity
  }

  /** The work that resizing may still have to do for a vector of `total` elements. */
  function Potential(total: nat, capacity: nat): nat { Abs(2 * total - capacity) }

  /** Adding one: a full vector's potential pays for moving all its elements. */
  lemma AddPays(total: nat, capacity: nat)
    requires total <= capacity
    ensures if total == capacity then capacity + Potential(total + 1, 2 * capacity) <= Potential(total, capacity) + 2
            else Potential(total + 1, capacity) <= Potential(total, capacity) + 2
  {
  }

  /** Deleting one, and halving when a quarter is left: the potential pays for moving half the block. */
  lemma DeletePays(total: nat, capacity: nat)
    requires 0 < total && capacity >= 2 && IsPow2(capacity)
    ensures if total > 1 && total - 1 == capacity / 4
            then capacity / 2 + Potential(total - 1, capacity / 2) <= Potential(total, capacity) + 2
            else Potential(total - 1, capacity) <= Potential(total, capacity) + 2
    ensures total > 1 && total - 1 == capacity / 4 ==> capacity >= 4 && total - 1 <= capacity / 2 && capacity / 2 >= 2
  {
    HalvesAndDoubles(capacity);
  }

  lemma ClearPays(total: nat, capacity: nat)
    requires total <= capacity
    ensures Potential(0, capacity) <= Potential(total, capacity) + 2 * total
  {
  }

  class VectorBase {
    var m_items: array<int>
    var capacity: nat
    var total: nat
    ghost var copies: nat // elements that resizing has moved to a new block
    ghost var ops: nat    // adds, deletes, and elements dropped by clears

    /** Kept by every operation. The last part is the amortised bound: two moves for each operation and a constant. */
    ghost predicate Valid()
      reads this
    {
      && m_items.Length == capacity && IsPow2(capacity) && capacity >= 2 && total <= capacity
      && copies + Potential(total, capacity) <= 2 * ops + VECTOR_INIT_CAPACITY
    }

    function Items(): seq<int>
      requires total <= m_items.Length
      reads this, m_items
    {
      m_items[..total]
    }

    constructor ()
      ensures Valid() && Items() == [] && capacity == VECTOR_INIT_CAPACITY && copies == 0 && ops == 0 && fresh(m_items)
    {
      m_items := new int[VECTOR_INIT_CAPACITY];
      capacity, total, copies, ops := VECTOR_INIT_CAPACITY, 0, 0, 0;
      new;
      assert IsPow2(16) && IsPow2(8) && IsPow2(4) && IsPow2(2);
    }

    /** realloc keeps what fits both sizes. */
    method Resize(newCapacity: nat)
      requires total <= m_items.Length == capacity && total <= newCapacity
      modifies this`m_items, this`capacity, this`copies
      ensures fresh(m_items) && m_items.Length == capacity == newCapacity && m_items[..total] == old(m_items[..total])
      ensures copies == old(copies) + (if newCapacity < old(capacity) then newCapacity else old(capacity))
    {
      var kept := if newCapacity < capacity then newCapacity else capacity;
      var items := new int[newCapacity];
      forall i | 0 <= i < kept { items[i] := m_items[i]; }
      m_items, capacity, copies := items, newCapacity, copies + kept;
    }

    /** VectorBase_add: doubles when full. */
    method Add(value: int) returns (count: nat)
      requires Valid()
      modifies this, m_items
      ensures Valid() && Items() == old(Items()) + [value] && count == total && ops == old(ops) + 1
      ensures capacity == if old(total == capacity) then 2 * old(capacity) else old(capacity)
      ensures m_items == old(m_items) || fresh(m_items)
    {
      hide IsPow2, Potential;
      HalvesAndDoubles(capacity);
      AddPays(total, capacity);
      if capacity == total {
        Resize(capacity * 2);
      }
      m_items[total] := value;
      total := total + 1;
      ops := ops + 1;
      return total;
    }

    /** VectorBase_set: an index outside is ignored. */
    method Set(index: int, value: int)
      requires Valid()
      modifies m_items
      ensures Valid() && Items() == if 0 <= index < total then old(Items())[index := value] else old(Items())
    {
      if index >= 0 && index < total {
        m_items[index] := value;
      }
    }

    /** VectorBase_get. */
    method Get(index: int) returns (value: int)
      requires Valid()
      ensures value == if 0 <= index < total then Items()[index] else -ENOENT
    {
      if index >= 0 && index < total {
        return m_items[index];
      }
      return -ENOENT;
    }

    /** The shifting loop of VectorBase_delete. */
    method ShiftDown(index: nat)
      requires index < total <= m_items.Length
      modifies m_items
      ensures m_items[..total - 1] == old(m_items[..index] + m_items[index + 1..total])
    {
      ghost var before := m_items[..];
      for i := index to total - 1
        invariant forall k :: 0 <= k < total ==> m_items[k] == before[if index <= k < i then k + 1 else k]
      {
        m_items[i] := m_items[i + 1];
      }
    }

    /** VectorBase_delete: shifts down, and halves when a quarter is left. */
    method Delete(index: int) returns (value: int)
      requires Valid()
      modifies this, m_items
      ensures Valid() && (m_items == old(m_items) || fresh(m_items))
      ensures 0 <= index < old(total) ==>
                && value == old(Items())[index] && ops == old(ops) + 1
                && Items() == old(Items())[..index] + old(Items())[index + 1..]
      ensures !(0 <= index < old(total)) ==> value == -ENOENT && Items() == old(Items()) && ops == old(ops)
      ensures capacity == if 0 <= index < old(total) then Shrunk(total, old(capacity)) else old(capacity)
    {
      hide IsPow2, Potential;
      if index < 0 || index >= total {
        return -ENOENT;
      }
      value := m_items[index];
      ShiftDown(index);
      assert m_items[..total - 1] == old(Items())[..index] + old(Items())[index + 1..];
      total := total - 1;
      ops := ops + 1;
      ShrinkAtQuarter();
    }

    /** The end of VectorBase_delete, with the potential of one element more. */
    method ShrinkAtQuarter()
      requires m_items.Length == capacity && IsPow2(capacity) && capacity >= 2 && total < capacity && ops > 0
      requires copies + Potential(total + 1, capacity) <= 2 * (ops - 1) + VECTOR_INIT_CAPACITY
      modifies this`m_items, this`capacity, this`copies
      ensures Valid() && (m_items == old(m_items) || fresh(m_items)) && Items() == old(Items())
      ensures capacity == Shrunk(total, old(capacity))
    {
      hide IsPow2, Potential;
      HalvesAndDoubles(capacity);
      DeletePays(total + 1, capacity);
      if total > 0 && total == capacity / 4 {
        Resize(capacity / 2);
      }
    }

    /** VectorBase_clear: every element goes to the callback, in order. */
    method Clear() returns (freed: seq<int>)
      requires Valid()
      modifies this`total, this`ops
      ensures Valid() && Items() == [] && freed == old(Items()) && ops == old(ops) + old(total)
    {
      hide IsPow2, Potential;
      ClearPays(total, capacity);
      freed := [];
      for i := 0 to total
        invariant freed == Items()[..i]
      {
        freed := freed + [m_items[i]];
      }
      ops := ops + total;
      total := 0;
    }
  }

  /** A run of adds and deletes from a new vector, and the sequence it should give. */
  datatype Op = Add(value: int) | Set(index: int, value: int) | Delete(index: int)

  function Apply(s: seq<int>, op: Op): seq<int> {
    match op
    case Add(v) => s + [v]
    case Set(i, v) => if 0 <= i < |s| then s[i := v] else s
    case Delete(i) => if 0 <= i < |s| then s[..i] + s[i + 1..] else s
  }

  function ApplyAll(s: seq<int>, ops: seq<Op>): seq<int> {
    if ops == [] then s else Apply(ApplyAll(s, ops[..|ops| - 1]), ops[|ops| - 1])
  }

  /** Any run refines the sequence operations and moves at most two elements for each, plus a constant. */
  method Run(ops: seq<Op>) returns (items: seq<int>, ghost copies: nat)
    ensures items == ApplyAll([], ops) && copies <= 2 * |ops| + VECTOR_INIT_CAPACITY
  {
    var v := new VectorBase();
    for i := 0 to |ops|
      invariant v.Valid() && fresh(v) && fresh(v.m_items)
      invariant v.Items() == ApplyAll([], ops[..i]) && v.ops <= i
    {
      assert ops[..i + 1][..i] == ops[..i];
      match ops[i] {
        case Add(value) => var count := v.Add(value);
        case Set(index, value) => v.Set(index, value);
        case Delete(index) => var value := v.Delete(index);
      }
    }
    assert ops[..|ops|] == ops;
    items, copies := v.m_items[..v.total], v.copies;
  }
}
