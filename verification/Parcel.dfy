/** The buffer, cursor and object table of a parcel (Parcel.c). Allocation succeeds; new memory holds anything. */
module Parcel {
  import opened Sums
  import opened ParcelCodec

  const STATUS_OK: int := 0
  const STATUS_NO_MEMORY: int := -12
  const STATUS_BAD_VALUE: int := -22
  const STATUS_NOT_ENOUGH_DATA: int := -61
  const STATUS_FDS_NOT_ALLOWED: int := -2147483641
  const SIZE_MAX: nat := 0xffff_ffff_ffff_ffff

  function Max(a: nat, b: nat): nat { if a > b then a else b }

  function Min(a: nat, b: nat): nat { if a < b then a else b }

  /** `bs` written over `c` from `pos` on. */
  function Put(c: seq<Byte>, pos: nat, bs: seq<Byte>): (r: seq<Byte>)
    requires pos <= |c|
    ensures |r| == Max(|c|, pos + |bs|)
  {
    c[..pos] + bs + (if pos + |bs| < |c| then c[pos + |bs|..] else [])
  }

  // ---------------------------------------------------------------- object tables

  /** Increasing, non-overlapping objects that end within `limit`. */
  predicate Ordered(table: seq<nat>, limit: nat) {
    && (forall i :: 0 <= i < |table| ==> table[i] + OBJECT_SIZE <= limit)
    && (forall i, j :: 0 <= i < j < |table| ==> table[i] + OBJECT_SIZE <= table[j])
  }

  function ObjectAt(c: seq<Byte>, offset: nat): Object
    requires offset + OBJECT_SIZE <= |c|
  {
    ObjectOf(c[offset..offset + OBJECT_SIZE])
  }

  /** The strong references on the local binder at `binder` that the entry at `offset` stands for. */
  function EntryRefs(c: seq<Byte>, offset: nat, binder: nat): nat
    requires offset + OBJECT_SIZE <= |c|
  {
    ObjectAt(c, offset).Refs(binder)
  }

  /** The strong references on the local binder at `binder` that a table stands for. */
  function TableRefs(c: seq<Byte>, table: seq<nat>, binder: nat): nat
    requires forall i :: 0 <= i < |table| ==> table[i] + OBJECT_SIZE <= |c|
  {
    if table == [] then 0
    else TableRefs(c, table[..|table| - 1], binder) + EntryRefs(c, table[|table| - 1], binder)
  }

  lemma {:induction false} TableRefsFrame(c: seq<Byte>, d: seq<Byte>, table: seq<nat>, n: nat, binder: nat)
    requires n <= |c| && n <= |d| && c[..n] == d[..n]
    requires forall i :: 0 <= i < |table| ==> table[i] + OBJECT_SIZE <= n
    ensures TableRefs(c, table, binder) == TableRefs(d, table, binder)
  {
    if table != [] {
      var off := table[|table| - 1];
      TableRefsFrame(c, d, table[..|table| - 1], n, binder);
      assert c[off..off + OBJECT_SIZE] == c[..n][off..off + OBJECT_SIZE];
      assert d[off..off + OBJECT_SIZE] == d[..n][off..off + OBJECT_SIZE];
    }
  }

  lemma {:induction false} TableRefsConcat(c: seq<Byte>, a: seq<nat>, b: seq<nat>, binder: nat)
    requires forall i :: 0 <= i < |a| ==> a[i] + OBJECT_SIZE <= |c|
    requires forall i :: 0 <= i < |b| ==> b[i] + OBJECT_SIZE <= |c|
    ensures forall i :: 0 <= i < |a + b| ==> (a + b)[i] + OBJECT_SIZE <= |c|
    ensures TableRefs(c, a + b, binder) == TableRefs(c, a, binder) + TableRefs(c, b, binder)
  {
    if b == [] {
      assert a + b == a;
    } else {
      assert (a + b)[..|a + b| - 1] == a + b[..|b| - 1];
      TableRefsConcat(c, a, b[..|b| - 1], binder);
    }
  }

  /** A table's references are those of its first `k` entries, of entry `k` and of the rest. */
  lemma TableRefsSplit(c: seq<Byte>, table: seq<nat>, k: nat, binder: nat)
    requires k < |table| && forall i :: 0 <= i < |table| ==> table[i] + OBJECT_SIZE <= |c|
    ensures TableRefs(c, table[k..], binder) == EntryRefs(c, table[k], binder) + TableRefs(c, table[k + 1..], binder)
    ensures TableRefs(c, table[..k + 1], binder) == TableRefs(c, table[..k], binder) + EntryRefs(c, table[k], binder)
    ensures TableRefs(c, table, binder) == TableRefs(c, table[..k], binder) + TableRefs(c, table[k..], binder)
  {
    hide EntryRefs, Object.Refs;
    assert table[k..] == [table[k]] + table[k + 1..];
    assert TableRefs(c, [table[k]], binder) == EntryRefs(c, table[k], binder) by {
      assert [table[k]][..0] == [];
    }
    TableRefsConcat(c, [table[k]], table[k + 1..], binder);
    assert table[..k + 1][..k] == table[..k];
    assert table == table[..k] + table[k..];
    TableRefsConcat(c, table[..k], table[k..], binder);
  }

  /** How many entries continueWrite keeps when the data size becomes `desired`. */
  function Kept(table: seq<nat>, desired: nat, size: nat): (k: nat)
    ensures k <= |table|
  {
    if desired >= size then |table| else if desired == 0 then 0 else KeptBelow(table, desired)
  }

  function KeptBelow(table: seq<nat>, desired: nat): (k: nat)
    ensures k <= |table|
    ensures k > 0 ==> table[k - 1] < desired
    ensures forall i :: k <= i < |table| ==> table[i] >= desired
  {
    if table == [] || table[|table| - 1] < desired then |table| else KeptBelow(table[..|table| - 1], desired)
  }

  /** On an ordered table, shrinking drops exactly the entries at or past the new size. */
  lemma KeptIsExact(table: seq<nat>, desired: nat, size: nat, i: nat)
    requires Ordered(table, size) && i < |table|
    ensures i < Kept(table, desired, size) <==> table[i] < desired
  {
    if desired < size && desired > 0 && i < KeptBelow(table, desired) {
      assert table[i] <= table[KeptBelow(table, desired) - 1];
    }
  }

  class Buffer {
    var mData: array?<Byte>
    var mDataSize: nat
    var mDataPos: nat
    var mObjects: seq<nat> // the first mObjectsSize slots of the table
    var mObjectsCapacity: nat
    var mNextObjectHint: nat
    var mError: int
    var mForeign: bool     // mOwner is set: the data belongs to the driver
    var mAllowFds: bool
    ghost const binder: nat // the cookie of any one local binder
    ghost var refs: int     // strong references on it that this parcel holds

    function Capacity(): nat
      reads this`mData
    {
      if mData == null then 0 else mData.Length
    }

    /** What every operation keeps: cursor, size and capacity in order, and every table entry inside the buffer. */
    ghost predicate Bounded()
      reads this
    {
      && mDataPos <= mDataSize <= Capacity() <= INT32_MAX
      && |mObjects| <= mObjectsCapacity
      && (forall i :: 0 <= i < |mObjects| ==> mObjects[i] + OBJECT_SIZE <= Capacity())
      && (mForeign ==> refs == 0 && mData != null && mDataSize == Capacity() && Ordered(mObjects, mDataSize))
    }

    function Contents(): (c: seq<Byte>)
      requires mDataSize <= Capacity()
      reads this`mData, this`mDataSize, mData
      ensures |c| == mDataSize
    {
      if mData == null then [] else mData[..mDataSize]
    }

    /** The ledger: one strong reference per local-binder entry of an ordered table; a foreign buffer's
        references are the driver's. */
    ghost predicate Orderly()
      requires Bounded()
      reads this, mData
    {
      && Ordered(mObjects, mDataSize)
      && (!mForeign ==> refs == TableRefs(Contents(), mObjects, binder))
    }

    constructor (ghost binder: nat)
      ensures Bounded() && Orderly() && Contents() == [] && mDataPos == 0 && !mForeign && mError == STATUS_OK
      ensures mData == null && mObjects == [] && mAllowFds && this.binder == binder
    {
      mData, mDataSize, mDataPos := null, 0, 0;
      mObjects, mObjectsCapacity, mNextObjectHint := [], 0, 0;
      mError, mForeign, mAllowFds, refs := STATUS_OK, false, true, 0;
      this.binder := binder;
    }

    /** Cutting the data at `size` does not cut through an object. */
    ghost predicate CutsNoObject(size: nat)
      reads this
    {
      forall i :: 0 <= i < |mObjects| ==> mObjects[i] + OBJECT_SIZE <= size || size <= mObjects[i]
    }

    // ---------------------------------------------------------------- references

    /** release_object. */
    method ReleaseObject(o: Object)
      modifies this`refs
      ensures refs == old(refs) - o.Refs(binder)
    {
      if o.IsLocalBinder() && o.cookie == binder { refs := refs - 1; }
    }

    /** acquire_object. */
    method AcquireObject(o: Object)
      modifies this`refs
      ensures refs == old(refs) + o.Refs(binder)
    {
      if o.IsLocalBinder() && o.cookie == binder { refs := refs + 1; }
    }

    /** continueWrite's loop over the entries it drops. */
    method ReleaseFrom(k: nat)
      requires Bounded() && k <= |mObjects| && mData != null
      modifies this`refs
      ensures refs == old(refs) - TableRefs(mData[..], mObjects[k..], binder)
    {
      hide ObjectAt, Object.Refs;
      ghost var c, table := mData[..], mObjects;
      assert table[|table|..] == [];
      for i := k to |mObjects|
        invariant refs - TableRefs(c, table[i..], binder) == old(refs) - TableRefs(c, table[k..], binder)
      {
        TableRefsSplit(c, table, i, binder);
        ReleaseObject(ObjectAt(mData[..], mObjects[i]));
      }
    }

    /** Parcel_releaseObjects. */
    method ReleaseObjects()
      requires Bounded()
      modifies this`refs
      ensures mObjects == [] ==> refs == old(refs)
      ensures mData != null ==> refs == old(refs) - TableRefs(mData[..], mObjects, binder)
    {
      hide ObjectAt, Object.Refs;
      var i := |mObjects|;
      assert mObjects[..i] == mObjects;
      while i > 0
        invariant 0 <= i <= |mObjects|
        invariant mObjects == [] ==> refs == old(refs)
        invariant mData != null ==>
                    refs - TableRefs(mData[..], mObjects[..i], binder)
                    == old(refs) - TableRefs(mData[..], mObjects, binder)
      {
        i := i - 1;
        TableRefsSplit(mData[..], mObjects, i, binder);
        ReleaseObject(ObjectAt(mData[..], mObjects[i]));
      }
    }

    /** Parcel_acquireObjects, for the first `k` entries. */
    method AcquireObjects(k: nat)
      requires Bounded() && k <= |mObjects| && mData != null
      modifies this`refs
      ensures refs == old(refs) + TableRefs(mData[..], mObjects[..k], binder)
    {
      hide ObjectAt, Object.Refs;
      ghost var c, table := mData[..], mObjects[..k];
      var i := k;
      assert table[k..] == [];
      while i > 0
        invariant 0 <= i <= k && refs == old(refs) + TableRefs(c, table[i..], binder)
      {
        i := i - 1;
        TableRefsSplit(c, table, i, binder);
        AcquireObject(ObjectAt(mData[..], mObjects[i]));
      }
      assert table[0..] == table;
    }

    // ---------------------------------------------------------------- growing and shrinking

    method InitState()
      modifies this
      ensures Bounded() && Contents() == [] && mDataPos == 0 && !mForeign && mError == STATUS_OK
      ensures mData == null && mObjects == [] && mNextObjectHint == 0 && mAllowFds && refs == old(refs)
    {
      mData, mDataSize, mDataPos := null, 0, 0;
      mObjects, mObjectsCapacity, mNextObjectHint := [], 0, 0;
      mError, mForeign, mAllowFds := STATUS_OK, false, true;
    }

    method FreeData()
      requires Bounded()
      modifies this
      ensures Bounded() && Contents() == [] && mDataPos == 0 && !mForeign && mError == STATUS_OK
      ensures mData == null && mObjects == [] && mNextObjectHint == 0 && mAllowFds
      ensures old(Orderly()) ==> refs == 0
    {
      if !mForeign {
        if Orderly() { DataHoldsContents(); }
        ReleaseObjects();
      }
      InitState();
    }

    /** The table's references read from the whole buffer and from the data alone. */
    lemma DataHoldsContents()
      requires Bounded() && (forall i :: 0 <= i < |mObjects| ==> mObjects[i] + OBJECT_SIZE <= mDataSize)
      ensures mData == null ==> mObjects == []
      ensures mData != null ==> TableRefs(mData[..], mObjects, binder) == TableRefs(Contents(), mObjects, binder)
    {
      if mData == null {
        TableNeedsRoom(mObjects, 0);
      } else {
        TableRefsFrame(mData[..], Contents(), mObjects, mDataSize, binder);
      }
    }

    /** The entries that survive, counted as continueWrite does. */
    method CountKept(desired: nat) returns (objectsSize: nat)
      ensures objectsSize == Kept(mObjects, desired, mDataSize)
    {
      objectsSize := |mObjects|;
      if desired < mDataSize {
        if desired == 0 {
          objectsSize := 0;
        } else {
          assert mObjects[..objectsSize] == mObjects;
          while objectsSize > 0
            invariant objectsSize <= |mObjects|
            invariant KeptBelow(mObjects, desired) == KeptBelow(mObjects[..objectsSize], desired)
          {
            assert mObjects[..objectsSize][..objectsSize - 1] == mObjects[..objectsSize - 1];
            if mObjects[objectsSize - 1] < desired {
              break;
            }
            objectsSize := objectsSize - 1;
          }
        }
      }
    }

    /** Changing the size to `desired` leaves cursor and table inside the buffer: always for a parcel's own data; for
        the driver's, whose copy is no larger than asked for, when the cursor and every object end within it. */
    ghost predicate StaysBounded(desired: nat)
      reads this
    {
      !mForeign || desired == 0 || (mDataPos <= desired && CutsNoObject(desired))
    }

    /** continueWrite: change what the buffer can hold, dropping what no longer fits. */
    method ContinueWrite(desired: nat) returns (status: int)
      requires Bounded()
      modifies this
      ensures mData == old(mData) || mData == null || fresh(mData)
      ensures status == if desired > INT32_MAX then STATUS_BAD_VALUE else STATUS_OK
      ensures status != STATUS_OK ==> unchanged(this)
      ensures status == STATUS_OK ==> (Bounded() <==> old(StaysBounded(desired)))
      ensures status == STATUS_OK ==>
                && !mForeign && desired <= Capacity()
                && Capacity() == (if old(mForeign) then desired else Max(old(Capacity()), desired))
                && mDataSize == Min(old(mDataSize), desired)
                && Contents() == old(Contents())[..mDataSize]
                && mDataPos == (if old(mForeign) && desired > 0 then old(mDataPos) else Min(old(mDataPos), desired))
                && mObjects == old(mObjects)[..Kept(old(mObjects), desired, old(mDataSize))]
      ensures status == STATUS_OK && desired > 0 ==> mError == old(mError) && mAllowFds == old(mAllowFds)
      ensures status == STATUS_OK && old(mForeign) && desired > 0 ==> mObjectsCapacity == |mObjects|
      ensures status == STATUS_OK && old(Orderly() && StaysBounded(desired)) ==>
                old(desired < mDataSize ==> CutsNoObject(desired)) ==> Orderly()
      ensures status == STATUS_OK && old(Orderly() && !mForeign) ==>
                refs == TableRefs(old(Contents()), mObjects, binder)
      ensures !old(mForeign) && desired >= old(mDataSize) ==>
                refs == old(refs) && mObjectsCapacity == old(mObjectsCapacity)
    {
      if desired > INT32_MAX {
        return STATUS_BAD_VALUE;
      }
      hide EntryRefs, ObjectAt, TableRefs, Kept;
      var objectsSize := CountKept(desired);
      if mForeign {
        if desired == 0 {
          KeptNothing(mObjects, mDataSize);
          FreeData();
          assert mObjects == old(mObjects)[..0];
        } else {
          TakeOver(desired, objectsSize);
        }
      } else if mData != null {
        Reshape(desired, objectsSize);
      } else {
        TableNeedsRoom(mObjects, 0);
        assert mObjects == [] && objectsSize == 0;
        mData := new Byte[desired];
        assert old(mObjects)[..0] == [] && Contents() == [];
      }
      status := STATUS_OK;
    }

    /** The own-data branch. */
    method Reshape(desired: nat, objectsSize: nat)
      requires Bounded() && !mForeign && mData != null && desired <= INT32_MAX
      requires objectsSize == Kept(mObjects, desired, mDataSize)
      modifies this
      ensures Bounded() && !mForeign && mData != null && (mData == old(mData) || fresh(mData))
      ensures Capacity() == Max(old(Capacity()), desired) && mDataPos == Min(old(mDataPos), desired)
      ensures mDataSize == Min(old(mDataSize), desired) && Contents() == old(Contents())[..mDataSize]
      ensures mObjects == old(mObjects)[..objectsSize] && mError == old(mError) && mAllowFds == old(mAllowFds)
      ensures old(Orderly()) ==> refs == TableRefs(old(Contents()), mObjects, binder)
      ensures old(Orderly() && (desired < mDataSize ==> CutsNoObject(desired))) ==> Orderly()
      ensures desired >= old(mDataSize) ==> refs == old(refs) && mObjectsCapacity == old(mObjectsCapacity)
    {
      hide EntryRefs, ObjectAt, TableRefs;
      if Orderly() && (desired < mDataSize ==> CutsNoObject(desired)) { KeptFit(mObjects, desired, mDataSize); }
      ghost var c, table := Contents(), mObjects[..objectsSize];
      DropObjects(objectsSize);
      Resize(desired);
      if old(Orderly() && (desired < mDataSize ==> CutsNoObject(desired))) {
        TableRefsFrame(c, Contents(), table, mDataSize, binder);
      }
    }

    /** The own-data branch, first half: release the entries that go. */
    method DropObjects(objectsSize: nat)
      requires Bounded() && !mForeign && mData != null && objectsSize <= |mObjects|
      modifies this`refs, this`mObjects, this`mObjectsCapacity, this`mNextObjectHint
      ensures Bounded() && mObjects == old(mObjects)[..objectsSize]
      ensures old(Orderly()) ==> refs == TableRefs(Contents(), mObjects, binder)
      ensures objectsSize == old(|mObjects|) ==> refs == old(refs) && mObjectsCapacity == old(mObjectsCapacity)
    {
      hide EntryRefs, ObjectAt, TableRefs;
      if objectsSize < |mObjects| {
        if Orderly() { TableSplits(objectsSize); }
        ReleaseFrom(objectsSize);
        mObjects, mObjectsCapacity, mNextObjectHint := mObjects[..objectsSize], objectsSize, 0;
      } else {
        assert mObjects[..objectsSize] == mObjects;
      }
    }

    /** What the dropped and the kept entries stand for. */
    lemma TableSplits(k: nat)
      requires Bounded() && mData != null && k <= |mObjects| && Ordered(mObjects, mDataSize)
      ensures TableRefs(Contents(), mObjects, binder)
           == TableRefs(Contents(), mObjects[..k], binder) + TableRefs(mData[..], mObjects[k..], binder)
    {
      hide EntryRefs, ObjectAt, TableRefs;
      TableRefsFrame(mData[..], Contents(), mObjects[k..], mDataSize, binder);
      TableRefsConcat(Contents(), mObjects[..k], mObjects[k..], binder);
      assert mObjects == mObjects[..k] + mObjects[k..];
    }

    /** The own-data branch, second half. */
    method Resize(desired: nat)
      requires Bounded() && !mForeign && mData != null && desired <= INT32_MAX
      modifies this`mData, this`mDataSize, this`mDataPos
      ensures Bounded() && mData != null && (mData == old(mData) || fresh(mData))
      ensures Capacity() == Max(old(Capacity()), desired) && mDataPos == Min(old(mDataPos), desired)
      ensures mDataSize == Min(old(mDataSize), desired) && Contents() == old(Contents())[..mDataSize]
    {
      if desired > mData.Length {
        var data := new Byte[desired];
        forall i | 0 <= i < mData.Length { data[i] := mData[i]; }
        assert data[..mDataSize] == mData[..mDataSize];
        mData := data;
      } else {
        if mDataSize > desired { mDataSize := desired; }
        if mDataPos > desired { mDataPos := desired; }
      }
    }

    /** The foreign branch: copy what stays, acquire its objects, give the buffer back. */
    method TakeOver(desired: nat, objectsSize: nat)
      requires Bounded() && mForeign && 0 < desired <= INT32_MAX
      requires objectsSize == Kept(mObjects, desired, mDataSize)
      modifies this
      ensures !mForeign && fresh(mData) && Capacity() == desired
      ensures mDataSize == Min(old(mDataSize), desired) && Contents() == old(Contents())[..mDataSize]
      ensures mDataPos == old(mDataPos) && mObjects == old(mObjects)[..objectsSize] && mObjectsCapacity == objectsSize
      ensures mError == old(mError) && mAllowFds == old(mAllowFds)
      ensures refs == TableRefs(old(Contents()), mObjects, binder)
      ensures Bounded() <==> old(mDataPos <= desired && CutsNoObject(desired))
      ensures Bounded() ==> Orderly()
    {
      hide EntryRefs, ObjectAt, TableRefs, Kept, Ordered;
      ghost var c, table := Contents(), mObjects[..objectsSize];
      KeptFit(mObjects, desired, mDataSize);
      TableInside(mObjects, mDataSize);
      var data := CopyOut(desired);
      assert mData[..] == c;
      AcquireObjects(objectsSize);
      mForeign := false; // mOwner was called and cleared
      mData, mDataSize := data, Min(mDataSize, desired);
      mObjects, mObjectsCapacity, mNextObjectHint := mObjects[..objectsSize], objectsSize, 0;
      if old(CutsNoObject(desired)) {
        TableInside(table, mDataSize);
        TableRefsFrame(c, Contents(), table, mDataSize, binder);
      }
    }

    /** malloc and memcpy of what stays. */
    method CopyOut(desired: nat) returns (data: array<Byte>)
      requires mDataSize <= Capacity()
      ensures fresh(data) && data.Length == desired
      ensures data[..Min(mDataSize, desired)] == Contents()[..Min(mDataSize, desired)]
    {
      data := new Byte[desired];
      if mData != null {
        forall i | 0 <= i < Min(mDataSize, desired) { data[i] := mData[i]; }
      }
    }

    // ---------------------------------------------------------------- writing

    /** What growing leaves alone. */
    twostate predicate SameData()
      requires old(mDataSize <= Capacity()) && mDataSize <= Capacity()
      reads this, mData
    {
      && Contents() == old(Contents()) && mDataPos == old(mDataPos) && mObjects == old(mObjects)
      && mAllowFds == old(mAllowFds) && (mError == old(mError))
    }

    method GrowData(len: nat) returns (status: int)
      requires Bounded()
      modifies this
      ensures Bounded() && (mData == old(mData) || fresh(mData)) && SameData()
      ensures status == STATUS_OK <==> GrowthFits(old(mDataSize), len)
      ensures status == STATUS_OK ==>
                !mForeign && Capacity() == Max(old(Capacity()), Max((mDataSize + len) * 3 / 2, 128))
      ensures status == STATUS_OK && old(mForeign) ==> mObjectsCapacity == |mObjects|
      ensures len > 0 && status != STATUS_OK ==> status == STATUS_BAD_VALUE
      ensures status != STATUS_OK ==> unchanged(this)
      ensures old(Orderly()) ==> Orderly()
      ensures !old(mForeign) ==> refs == old(refs) && mObjectsCapacity == old(mObjectsCapacity)
    {
      hide EntryRefs, ObjectAt, TableRefs;
      if len > INT32_MAX {
        return STATUS_BAD_VALUE;
      }
      if len > SIZE_MAX - mDataSize {
        return STATUS_NO_MEMORY;
      }
      if mDataSize + len > SIZE_MAX / 3 {
        return STATUS_NO_MEMORY;
      }
      var newSize := (mDataSize + len) * 3 / 2;
      if newSize <= mDataSize {
        return STATUS_NO_MEMORY;
      }
      assert mObjects[..|mObjects|] == mObjects;
      status := ContinueWrite(Max(newSize, 128));
    }

    method FinishWrite(len: nat)
      requires mDataPos <= mDataSize <= Capacity() && mDataPos + len <= Capacity()
      modifies this`mDataPos, this`mDataSize
      ensures mDataPos == old(mDataPos) + len && mDataSize == Max(old(mDataSize), mDataPos)
    {
      mDataPos := mDataPos + len;
      if mDataPos > mDataSize { mDataSize := mDataPos; }
    }

    function Room(): Space
      reads this
    {
      Space(mDataSize, mDataPos, Capacity())
    }

    /** Room for `n` more bytes at the cursor, now or after growing. */
    predicate Fits(n: nat)
      reads this
    {
      Room().Takes(n)
    }

    /** No recorded object has bytes among the next `n`. */
    ghost predicate Spares(n: nat)
      reads this
    {
      SparesAt(mDataPos, n)
    }

    ghost predicate SparesAt(pos: nat, n: nat)
      reads this
    {
      forall i :: 0 <= i < |mObjects| ==> mObjects[i] + OBJECT_SIZE <= pos || pos + n <= mObjects[i]
    }

    twostate predicate SameTable()
      reads this
    {
      && mObjects == old(mObjects) && mError == old(mError) && mAllowFds == old(mAllowFds)
      && (!old(mForeign) ==> refs == old(refs))
    }

    /** The effect of a successful write of `bs`. */
    twostate predicate Wrote(bs: seq<Byte>)
      requires old(mDataPos <= mDataSize <= Capacity()) && mDataSize <= Capacity()
      reads this, mData
    {
      Contents() == Put(old(Contents()), old(mDataPos), bs) && mDataPos == old(mDataPos) + |bs|
    }

    /** memcpy into the buffer. */
    method CopyIn(at: nat, bs: seq<Byte>)
      requires at + |bs| <= Capacity()
      modifies mData
      ensures mData != null ==> mData[..] == Put(old(mData[..]), at, bs)
    {
      if mData != null {
        forall i | 0 <= i < |bs| { mData[at + i] := bs[i]; }
        assert mData[at..at + |bs|] == bs;
        assert mData[..] == mData[..at] + mData[at..at + |bs|] + mData[at + |bs|..];
      }
    }

    /** A write beside the recorded objects keeps the ledger. */
    twostate lemma StaysOrderly(bs: seq<Byte>)
      requires old(Bounded() && Orderly() && Spares(|bs|)) && Bounded() && SameTable() && !mForeign
      requires refs == old(TableRefs(Contents(), mObjects, binder)) && Wrote(bs)
      ensures Orderly()
    {
      hide EntryRefs, ObjectAt, TableRefs;
      TableRefsPut(old(Contents()), old(mDataPos), bs, mObjects, binder);
    }

    /** memcpy at the cursor, then finishWrite. */
    method PutBytes(bs: seq<Byte>)
      requires Bounded() && !mForeign && mDataPos + |bs| <= Capacity()
      modifies this`mDataPos, this`mDataSize, mData
      ensures Bounded() && Wrote(bs)
      ensures old(Orderly() && Spares(|bs|)) ==> Orderly()
    {
      hide EntryRefs, ObjectAt, TableRefs;
      ghost var c := Contents();
      CopyIn(mDataPos, bs);
      FinishWrite(|bs|);
      assert Contents() == Put(c, old(mDataPos), bs);
      if old(Orderly() && Spares(|bs|)) {
        StaysOrderly(bs);
      }
    }

    /** writeAligned. */
    method WriteAligned(bs: seq<Byte>) returns (status: int)
      requires Bounded() && (mForeign ==> mDataPos + |bs| > Capacity())
      modifies this, mData
      ensures Bounded() && (mData == old(mData) || fresh(mData)) && SameTable()
      ensures status == STATUS_OK <==> old(Fits(|bs|))
      ensures status == STATUS_OK ==> Wrote(bs) && !mForeign && Room() == old(Room()).After(|bs|)
      ensures status != STATUS_OK ==> SameData() && unchanged(this)
      ensures |bs| > 0 && status != STATUS_OK ==> status == STATUS_BAD_VALUE
      ensures old(Orderly() && Spares(|bs|)) ==> Orderly()
    {
      hide EntryRefs, ObjectAt, TableRefs, Ordered, Put;
      if mDataPos + |bs| > Capacity() {
        status := GrowData(|bs|);
        if status != STATUS_OK {
          return;
        }
      }
      PutBytes(bs);
      status := STATUS_OK;
    }

    /** writeInplace's mask: clear the pad bytes in the last word. */
    method ClearPad(len: nat)
      requires mDataPos + PadSize(len) <= Capacity()
      modifies mData
      ensures mData != null ==>
                mData[..] == Put(old(mData[..]), mDataPos, Padded(old(mData[mDataPos..mDataPos + len])))
    {
      hide MaskWord, Put, Padded;
      var padded := PadSize(len);
      ghost var whole := if mData == null then [] else mData[..];
      if padded != len {
        var end := mDataPos + padded;
        var word := mData[end - 4..end];
        MaskKeepsExactly(word, padded - len);
        assert word[..4 - (padded - len)] == whole[end - 4..mDataPos + len];
        PadLast(whole, mDataPos, len);
        assert whole[mDataPos..mDataPos + len] == mData[mDataPos..mDataPos + len];
        CopyIn(end - 4, MaskWord(word, padded - len));
      } else if mData != null {
        PutSame(whole, mDataPos, len);
        assert whole[mDataPos..mDataPos + len] == mData[mDataPos..mDataPos + len];
      }
    }

    /** writeInplace after any growth. */
    method Reserve(len: nat) returns (ghost some: seq<Byte>)
      requires Bounded() && !mForeign && mDataPos + PadSize(len) <= Capacity()
      modifies this`mDataPos, this`mDataSize, mData
      ensures Bounded() && |some| == len && Wrote(Padded(some))
      ensures old(Orderly() && Spares(PadSize(len))) ==> Orderly()
    {
      hide EntryRefs, ObjectAt, TableRefs, Padded, Put;
      some := if mData == null then [] else mData[mDataPos..mDataPos + len];
      ghost var whole := if mData == null then [] else mData[..];
      ClearPad(len);
      FinishWrite(PadSize(len));
      PutTake(whole, old(mDataSize), old(mDataPos), Padded(some));
      if old(Orderly() && Spares(PadSize(len))) { StaysOrderly(Padded(some)); }
    }

    /** writeInplace returns an address. */
    predicate Reserves(len: nat)
      reads this
    {
      len <= INT32_MAX && Fits(PadSize(len)) && (mData != null || len > 0)
    }

    /** writeInplace: reserve `len` bytes plus padding; the caller fills the `len` bytes. */
    method WriteInplace(len: nat) returns (found: bool, ghost some: seq<Byte>)
      requires Bounded() && (mForeign ==> mDataPos + PadSize(len) > Capacity())
      modifies this, mData
      ensures Bounded() && (mData == old(mData) || fresh(mData)) && SameTable()
      ensures found <==> old(Reserves(len))
      ensures found ==> |some| == len && Wrote(Padded(some)) && !mForeign && Room() == old(Room()).After(PadSize(len))
      ensures !found ==> SameData() && unchanged(this)
      ensures old(Orderly() && Spares(PadSize(len))) ==> Orderly()
    {
      hide EntryRefs, ObjectAt, TableRefs, Ordered, Put, Padded;
      some := [];
      if len > INT32_MAX {
        return false, [];
      }
      var padded := PadSize(len);
      if mDataPos + padded > Capacity() {
        var err := GrowData(padded);
        if err != STATUS_OK {
          return false, [];
        }
      }
      if mData == null {
        return false, []; // nothing was ever allocated and nothing is reserved: the address is the null pointer
      }
      some := Reserve(len);
      found := true;
    }

    /** Parcel_write. A refused growth reports mError, which may be STATUS_OK. */
    method Write(bs: seq<Byte>) returns (status: int)
      requires Bounded() && (mForeign ==> mDataPos + PadSize(|bs|) > Capacity())
      modifies this, mData
      ensures Bounded() && (mData == old(mData) || fresh(mData)) && SameTable()
      ensures old(Reserves(|bs|)) ==> status == STATUS_OK && Wrote(Padded(bs)) && !mForeign
      ensures old(Reserves(|bs|)) ==> Room() == old(Room()).After(PadSize(|bs|))
      ensures |bs| <= INT32_MAX && !old(Reserves(|bs|)) ==> status == old(mError)
      ensures |bs| > INT32_MAX ==> status == STATUS_BAD_VALUE
      ensures !old(Reserves(|bs|)) ==> SameData() && unchanged(this)
      ensures old(Orderly() && Spares(PadSize(|bs|))) ==> Orderly()
    {
      hide EntryRefs, ObjectAt, TableRefs, Orderly, Padded;
      if |bs| > INT32_MAX {
        return STATUS_BAD_VALUE;
      }
      ghost var c := Contents();
      var start := mDataPos;
      var found, some := WriteInplace(|bs|);
      if found {
        Fill(c, start, some, bs);
        return STATUS_OK;
      }
      status := mError;
    }

    /** The caller of writeInplace fills what it reserved. */
    method Fill(ghost c: seq<Byte>, pos: nat, ghost some: seq<Byte>, bs: seq<Byte>)
      requires Bounded() && !mForeign && mDataPos == pos + PadSize(|bs|) && |some| == |bs|
      requires pos <= |c| && Contents() == Put(c, pos, Padded(some))
      modifies mData
      ensures Contents() == Put(c, pos, Padded(bs))
      ensures old(Orderly()) && SparesAt(pos, PadSize(|bs|)) ==> Orderly()
    {
      hide EntryRefs, ObjectAt, TableRefs, Put, Padded;
      ghost var d, whole := Contents(), if mData == null then [] else mData[..];
      CopyIn(pos, bs);
      PutTake(whole, mDataSize, pos, bs);
      assert Contents() == Put(d, pos, bs);
      PutOver(c, pos, some, bs);
      if old(Orderly()) && SparesAt(pos, PadSize(|bs|)) {
        TableRefsPut(d, pos, bs, mObjects, binder);
      }
    }

    /** writeObject from `restart_write` on. The store into the table is not checked against its capacity. */
    method CommitObject(val: Object, nullMetaData: bool) returns (r: Stored)
      requires Bounded() && !mForeign && val.Fits() && mDataPos + OBJECT_SIZE <= Capacity()
      modifies this`mDataPos, this`mDataSize, this`mObjects, this`refs, mData
      ensures r == if Refuses(val) then Done(STATUS_FDS_NOT_ALLOWED)
                   else if Recorded(val, nullMetaData) && old(|mObjects|) == mObjectsCapacity then StoredOutside
                   else Done(STATUS_OK)
      ensures r.Done? ==> Bounded()
      ensures r == Done(STATUS_OK) ==> Wrote(ObjectBytes(val))
      ensures r == Done(STATUS_OK) ==>
                mObjects == old(mObjects) + (if Recorded(val, nullMetaData) then [old(mDataPos)] else [])
      ensures r != Done(STATUS_OK) ==>
                mDataPos == old(mDataPos) && mObjects == old(mObjects) && mDataSize == old(mDataSize)
      ensures r.Done? && r.status != STATUS_OK ==>
                Contents() == Put(old(Contents()), mDataPos, ObjectBytes(val))[..mDataSize]
      ensures r.Done? && r.status != STATUS_OK && mDataPos == mDataSize ==> Contents() == old(Contents())
      ensures r.Done? && old(Orderly() && mDataPos == mDataSize) ==> Orderly()
    {
      hide EntryRefs, ObjectAt, TableRefs, ObjectBytes, Object.Refs, Object.Fits, Put;
      ghost var c, table, whole := Contents(), mObjects, mData[..];
      CopyIn(mDataPos, ObjectBytes(val));
      PutTake(whole, mDataSize, mDataPos, ObjectBytes(val));
      if val.ty == BINDER_TYPE_FD && !mAllowFds {
        PutFront(whole, mDataSize, mDataPos, ObjectBytes(val));
        return Done(STATUS_FDS_NOT_ALLOWED);
      }
      if nullMetaData || val.binder != 0 {
        if |mObjects| == mObjectsCapacity {
          return StoredOutside;
        }
        mObjects := mObjects + [mDataPos];
        AcquireObject(val);
      }
      FinishWrite(OBJECT_SIZE);
      r := Done(STATUS_OK);
      if old(Orderly() && mDataPos == mDataSize) {
        RecordObject(c, table, val, binder);
        if !(nullMetaData || val.binder != 0) { assert !val.IsLocalBinder(); NoRefs(val, binder); }
      }
    }

    predicate Refuses(val: Object)
      reads this
    {
      val.ty == BINDER_TYPE_FD && !mAllowFds
    }

    /** writeObject. It asks for the size of a pointer, and still gets room for a whole object. Whether the table has
        room is decided before the growth, which may take the table's spare slots away. */
    method WriteObject(val: Object, nullMetaData: bool) returns (r: Stored)
      requires Bounded() && val.Fits() && (mForeign ==> mDataPos + OBJECT_SIZE > Capacity())
      modifies this, mData
      ensures r == if !old(ObjectFits()) then Done(STATUS_BAD_VALUE)
                   else if old(Refuses(val)) then Done(STATUS_FDS_NOT_ALLOWED)
                   else if Recorded(val, nullMetaData) && old(mForeign && |mObjects| < mObjectsCapacity)
                   then StoredOutside
                   else Done(STATUS_OK)
      ensures mData == old(mData) || fresh(mData)
      ensures r.Done? ==> Bounded() && mError == old(mError) && mAllowFds == old(mAllowFds)
      ensures r == Done(STATUS_OK) ==> Wrote(ObjectBytes(val)) && !mForeign
      ensures r == Done(STATUS_OK) ==>
                mObjects == old(mObjects) + (if Recorded(val, nullMetaData) then [old(mDataPos)] else [])
      ensures r != Done(STATUS_OK) ==> mDataPos == old(mDataPos) && mObjects == old(mObjects)
      ensures !old(ObjectFits()) ==> SameData() && unchanged(this)
      ensures r.Done? && r.status != STATUS_OK && old(mDataPos == mDataSize) ==> Contents() == old(Contents())
      ensures r.Done? && old(Orderly() && mDataPos == mDataSize) ==> Orderly()
    {
      hide EntryRefs, ObjectAt, TableRefs, ObjectBytes, Recorded, Put, Ordered, Object.Refs, Object.Fits;
      var enoughData := mDataPos + OBJECT_SIZE <= Capacity();
      var enoughObjects := |mObjects| < mObjectsCapacity;
      if !enoughData {
        var status := GrowData(POINTER_SIZE);
        if status != STATUS_OK {
          return Done(status);
        }
      }
      if !enoughObjects {
        mObjectsCapacity := (|mObjects| + 2) * 3 / 2;
      }
      r := CommitObject(val, nullMetaData);
    }

    predicate ObjectFits()
      reads this
    {
      mDataPos + OBJECT_SIZE <= Capacity() || GrowthFits(mDataSize, POINTER_SIZE)
    }

    /** Parcel_setDataSize. */
    method SetDataSize(size: nat) returns (status: int)
      requires Bounded()
      modifies this
      ensures mData == old(mData) || mData == null || fresh(mData)
      ensures status == if size > INT32_MAX then STATUS_BAD_VALUE else STATUS_OK
      ensures status != STATUS_OK ==> unchanged(this)
      ensures status == STATUS_OK ==> (Bounded() <==> old(StaysBounded(size)))
      ensures status == STATUS_OK ==>
                && !mForeign && mDataSize == size <= Capacity()
                && Capacity() == (if old(mForeign) then size else Max(old(Capacity()), size))
                && mDataPos == (if old(mForeign) && size > 0 then old(mDataPos) else Min(old(mDataPos), size))
                && Contents()[..Min(size, old(mDataSize))] == old(Contents())[..Min(size, old(mDataSize))]
                && mObjects == old(mObjects)[..Kept(old(mObjects), size, old(mDataSize))]
      ensures status == STATUS_OK && size > 0 ==> mError == old(mError) && mAllowFds == old(mAllowFds)
      ensures status == STATUS_OK && old(Orderly() && StaysBounded(size)) ==>
                old(size < mDataSize ==> CutsNoObject(size)) ==> Orderly()
      ensures status == STATUS_OK && old(Orderly() && !mForeign) ==>
                refs == TableRefs(old(Contents()), mObjects, binder)
    {
      hide EntryRefs, ObjectAt, TableRefs, Kept;
      if size > INT32_MAX {
        return STATUS_BAD_VALUE;
      }
      status := ContinueWrite(size);
      ghost var c := Contents();
      mDataSize := size;
      assert Contents()[..|c|] == c;
      if old(Orderly() && StaysBounded(size)) && old(size < mDataSize ==> CutsNoObject(size)) {
        TableRefsFrame(c, Contents(), mObjects, |c|, binder);
      }
    }

    /** Parcel_setDataCapacity. */
    method SetDataCapacity(size: nat) returns (status: int)
      requires Bounded()
      modifies this
      ensures Bounded() && (mData == old(mData) || fresh(mData)) && SameData()
      ensures status == if size > INT32_MAX then STATUS_BAD_VALUE else STATUS_OK
      ensures status == STATUS_OK ==> Capacity() == Max(old(Capacity()), size)
      ensures mForeign <==> old(mForeign) && (status != STATUS_OK || size <= old(Capacity()))
      ensures old(Orderly()) ==> Orderly()
    {
      if size > INT32_MAX {
        return STATUS_BAD_VALUE;
      }
      status := STATUS_OK;
      if size > Capacity() {
        assert mObjects[..|mObjects|] == mObjects;
        status := ContinueWrite(size);
      }
    }

    /** Parcel_setDataPosition. A larger cursor aborts; one past the data is accepted. */
    method SetDataPosition(pos: nat)
      requires Bounded() && pos <= INT32_MAX
      modifies this`mDataPos, this`mNextObjectHint
      ensures mDataPos == pos && Contents() == old(Contents()) && (Bounded() <==> pos <= mDataSize)
      ensures old(Orderly()) && Bounded() ==> Orderly()
    {
      mDataPos, mNextObjectHint := pos, 0;
    }

    // ---------------------------------------------------------------- reading

    /** `n` bytes of the data. */
    function Bytes(pos: nat, n: nat): (bs: seq<Byte>)
      requires pos + n <= mDataSize <= Capacity()
      reads this`mData, this`mDataSize, mData
      ensures bs == Contents()[pos..pos + n]
    {
      if mData == null then [] else
        assert mData[..mDataSize][pos..pos + n] == mData[pos..pos + n];
        mData[pos..pos + n]
    }

    /** readAligned. */
    method ReadAligned(size: nat) returns (status: int, bs: seq<Byte>)
      requires Bounded()
      modifies this`mDataPos
      ensures Bounded()
      ensures status == if old(mDataPos) + size <= mDataSize then STATUS_OK else STATUS_NOT_ENOUGH_DATA
      ensures status == STATUS_OK ==> mDataPos == old(mDataPos) + size && bs == Contents()[old(mDataPos)..mDataPos]
      ensures status != STATUS_OK ==> bs == [] && mDataPos == old(mDataPos)
    {
      if mDataPos + size <= mDataSize {
        bs := Bytes(mDataPos, size);
        mDataPos := mDataPos + size;
        return STATUS_OK, bs;
      }
      return STATUS_NOT_ENOUGH_DATA, [];
    }

    /** readInplace: the `len` bytes at the old cursor, or none. */
    method ReadInplace(len: nat) returns (found: bool, bs: seq<Byte>)
      requires Bounded()
      modifies this`mDataPos
      ensures Bounded() && (found <==> len <= INT32_MAX && old(mDataPos) + PadSize(len) <= mDataSize && mData != null)
      ensures found ==> mDataPos == old(mDataPos) + PadSize(len) && bs == Contents()[old(mDataPos)..old(mDataPos) + len]
      ensures !found ==> mDataPos == old(mDataPos)
    {
      if len <= INT32_MAX && mDataPos + PadSize(len) <= mDataSize {
        bs := Bytes(mDataPos, len);
        mDataPos := mDataPos + PadSize(len);
        return mData != null, bs;
      }
      return false, [];
    }

    /** Parcel_read. */
    method Read(len: nat) returns (status: int, bs: seq<Byte>)
      requires Bounded()
      modifies this`mDataPos
      ensures Bounded()
      ensures len > INT32_MAX ==> status == STATUS_BAD_VALUE
      ensures len <= INT32_MAX ==>
                (status == if old(mDataPos) + PadSize(len) <= mDataSize then STATUS_OK else STATUS_NOT_ENOUGH_DATA)
      ensures status == STATUS_OK ==>
                mDataPos == old(mDataPos) + PadSize(len) && bs == Contents()[old(mDataPos)..old(mDataPos) + len]
      ensures status != STATUS_OK ==> mDataPos == old(mDataPos)
    {
      if len > INT32_MAX {
        return STATUS_BAD_VALUE, [];
      }
      if mDataPos + PadSize(len) <= mDataSize {
        bs := Bytes(mDataPos, len);
        mDataPos := mDataPos + PadSize(len);
        return STATUS_OK, bs;
      }
      return STATUS_NOT_ENOUGH_DATA, [];
    }

    /** readObject's search, forward from the hint and then backward. It never invents an object, and on an ordered
        table it is exact from every hint. */
    method FindObject(dpos: nat) returns (found: bool)
      modifies this`mNextObjectHint
      ensures Ordered(mObjects, mDataSize) ==> (found <==> dpos in mObjects)
      ensures found ==> 0 < mNextObjectHint <= |mObjects| && mObjects[mNextObjectHint - 1] == dpos
      ensures !found ==> mNextObjectHint == old(mNextObjectHint)
    {
      var n, opos := |mObjects|, mNextObjectHint;
      if n == 0 {
        return false;
      }
      if opos < n {
        while opos < n - 1 && mObjects[opos] < dpos
          invariant opos < n
        {
          opos := opos + 1;
        }
      } else {
        opos := n - 1;
      }
      if mObjects[opos] == dpos {
        mNextObjectHint := opos + 1;
        return true;
      }
      ghost var ordered := Ordered(mObjects, mDataSize);
      assert ordered ==> forall i :: opos < i < n ==> mObjects[i] != dpos;
      while opos > 0 && mObjects[opos] > dpos
        invariant opos < n && (ordered ==> forall i :: opos < i < n ==> mObjects[i] != dpos)
      {
        opos := opos - 1;
      }
      if mObjects[opos] == dpos {
        mNextObjectHint := opos + 1;
        return true;
      }
      found := false;
    }

    /** Parcel_readObject. */
    method ReadObject(nullMetaData: bool) returns (obj: Found)
      requires Bounded()
      modifies this`mDataPos, this`mNextObjectHint
      ensures Bounded()
      ensures mDataPos == old(mDataPos) + (if old(mDataPos) + OBJECT_SIZE <= mDataSize then OBJECT_SIZE else 0)
      ensures old(mDataPos) + OBJECT_SIZE > mDataSize ==> obj == Nothing
      ensures old(mDataPos) + OBJECT_SIZE <= mDataSize ==>
                var o := ObjectAt(Contents(), old(mDataPos));
                var known := old(mDataPos) in mObjects || (!nullMetaData && o.cookie == 0 && o.binder == 0);
                && (obj == Nothing || (obj == Found(o) && known))
                && (Ordered(mObjects, mDataSize) ==> obj == if known then Found(o) else Nothing)
    {
      hide ObjectOf;
      var dpos := mDataPos;
      if dpos + OBJECT_SIZE > mDataSize {
        return Nothing;
      }
      var o := ObjectAt(mData[..mDataSize], dpos);
      mDataPos := dpos + OBJECT_SIZE;
      if !nullMetaData && o.cookie == 0 && o.binder == 0 {
        return Found(o);
      }
      var found := FindObject(dpos);
      obj := if found then Found(o) else Nothing;
    }

    /** Parcel_ipcSetDataReference: the data belongs to the driver, which places every object inside it. */
    method IpcSetDataReference(data: array<Byte>, objects: seq<nat>)
      requires Bounded() && Orderly() && data.Length <= INT32_MAX
      requires forall i :: 0 <= i < |objects| ==> objects[i] + OBJECT_SIZE <= data.Length
      modifies this
      ensures Bounded() && Orderly() && mForeign && mData == data && Contents() == data[..] && mDataPos == 0
      ensures mObjects == if ValidTable(data[..], objects) then objects else []
      ensures Ordered(mObjects, mDataSize) && mObjectsCapacity == |objects| && mAllowFds && mError == STATUS_OK
    {
      hide EntryRefs, TableRefs, ObjectOf;
      FreeData();
      mData, mDataSize := data, data.Length;
      mObjects, mObjectsCapacity, mForeign := objects, |objects|, true;
      var minOffset := 0;
      for i := 0 to |objects|
        invariant mObjects == objects && mObjectsCapacity == |objects| && mAllowFds && mError == STATUS_OK
        invariant mForeign && mData == data && mDataSize == data.Length
        invariant mDataPos == 0 && refs == 0 && ValidTable(data[..], objects[..i])
        invariant minOffset == if i == 0 then 0 else objects[i - 1] + OBJECT_SIZE
      {
        var offset := objects[i];
        var ty := ObjectAt(mData[..], offset).ty;
        ValidStep(data[..], objects, i);
        if offset < minOffset || !KnownType(ty) {
          mObjects := [];
          ValidPrefix(data[..], objects, i + 1);
          return;
        }
        minOffset := offset + OBJECT_SIZE;
      }
      assert objects[..|objects|] == objects;
    }
  }

  /** What decides whether a write has room: size, cursor and capacity. */
  datatype Space = Space(size: nat, pos: nat, capacity: nat) {
    predicate Takes(n: nat) { pos + n <= capacity || GrowthFits(size, n) }

    /** After a write of `n` bytes at the cursor. */
    function After(n: nat): Space {
      Space(Max(size, pos + n), pos + n,
            if pos + n <= capacity then capacity else Max(capacity, Max((size + n) * 3 / 2, 128)))
    }
  }

  datatype Found = Found(object: Object) | Nothing

  /** What a write of an object does: report a status, or store its place outside the table. */
  datatype Stored = Done(status: int) | StoredOutside

  /** writeObject puts the object in the table. */
  predicate Recorded(val: Object, nullMetaData: bool) { nullMetaData || val.binder != 0 }

  predicate KnownType(ty: nat) { ty == BINDER_TYPE_BINDER || ty == BINDER_TYPE_HANDLE || ty == BINDER_TYPE_FD }

  /** Increasing, non-overlapping, and of the three known types. */
  ghost predicate ValidTable(c: seq<Byte>, table: seq<nat>) {
    && Ordered(table, |c|)
    && (forall i :: 0 <= i < |table| ==> KnownType(ObjectAt(c, table[i]).ty))
  }

  lemma ValidStep(c: seq<Byte>, table: seq<nat>, i: nat)
    requires i < |table| && ValidTable(c, table[..i]) && table[i] + OBJECT_SIZE <= |c|
    ensures ValidTable(c, table[..i + 1])
       <==> (i > 0 ==> table[i - 1] + OBJECT_SIZE <= table[i]) && KnownType(ObjectAt(c, table[i]).ty)
  {
    hide ObjectAt, KnownType;
    var t := table[..i + 1];
    assert forall k :: 0 <= k < i ==> t[k] == table[..i][k];
    assert t[i] == table[i];
    if i > 0 { assert t[i - 1] == table[i - 1]; }
    forall k | 0 <= k < i && table[i - 1] + OBJECT_SIZE <= table[i] ensures t[k] + OBJECT_SIZE <= t[i] {
      if k < i - 1 { assert table[..i][k] + OBJECT_SIZE <= table[..i][i - 1]; }
    }
  }

  lemma ValidPrefix(c: seq<Byte>, table: seq<nat>, i: nat)
    requires i <= |table| && !ValidTable(c, table[..i])
    ensures !ValidTable(c, table)
  {
    hide ObjectAt, KnownType;
    var t := table[..i];
    assert forall k :: 0 <= k < i ==> t[k] == table[k];
  }

  /** Growing by a pointer's size leaves room for a whole object, thanks to the 3/2 factor and the floor of 128. */
  lemma GrowthCoversObject(size: nat, pos: nat, capacity: nat)
    requires pos <= size && capacity >= Max((size + POINTER_SIZE) * 3 / 2, 128)
    ensures pos + OBJECT_SIZE <= capacity
  {
  }

  lemma NoRefs(o: Object, binder: nat)
    requires !o.IsLocalBinder()
    ensures o.Refs(binder) == 0
  {
  }

  /** Appending an object: what the old table stands for is unchanged, and its own entry stands for its references. */
  lemma RecordObject(c: seq<Byte>, table: seq<nat>, val: Object, binder: nat)
    requires Ordered(table, |c|) && val.Fits()
    ensures var d := Put(c, |c|, ObjectBytes(val));
            && Ordered(table, |d|) && Ordered(table + [|c|], |d|)
            && TableRefs(d, table, binder) == TableRefs(c, table, binder)
            && TableRefs(d, table + [|c|], binder) == TableRefs(c, table, binder) + val.Refs(binder)
  {
    hide ObjectBytes, ObjectOf, Object.Refs;
    var d := Put(c, |c|, ObjectBytes(val));
    TableRefsFrame(c, d, table, |c|, binder);
    assert d[|c|..|c| + OBJECT_SIZE] == ObjectBytes(val);
    ObjectRoundTrip(val);
    assert (table + [|c|])[..|table|] == table;
  }

  /** Parcel_write can report success without writing: an empty parcel refuses to grow beyond two thirds of the
      limit, and has no error to report. */
  method RefusedWriteLooksFine(bs: seq<Byte>) returns (p: Buffer, status: int)
    requires |bs| == 0x6000_0000
    ensures p.Bounded() && status == STATUS_OK && p.Contents() == [] && p.mDataPos == 0
  {
    p := new Buffer(0);
    status := p.Write(bs);
  }

  /** An in-place write seen from the data when the data does not grow. */
  lemma PutFront(whole: seq<Byte>, size: nat, pos: nat, bs: seq<Byte>)
    requires pos <= size <= |whole| && pos + |bs| <= |whole|
    ensures Put(whole, pos, bs)[..size] == Put(whole[..size], pos, bs)[..size]
    ensures pos == size ==> Put(whole, pos, bs)[..size] == whole[..size]
  {
    var a, b := Put(whole, pos, bs), Put(whole[..size], pos, bs);
    forall i | 0 <= i < size ensures a[i] == b[i] {
      if i < pos { assert a[i] == whole[i] == b[i]; }
    }
  }

  /** Writing beside the recorded objects leaves what the table stands for. */
  lemma {:induction false} TableRefsPut(c: seq<Byte>, pos: nat, bs: seq<Byte>, table: seq<nat>, binder: nat)
    requires pos <= |c| && forall i :: 0 <= i < |table| ==> table[i] + OBJECT_SIZE <= |c|
    requires forall i :: 0 <= i < |table| ==> table[i] + OBJECT_SIZE <= pos || pos + |bs| <= table[i]
    ensures TableRefs(Put(c, pos, bs), table, binder) == TableRefs(c, table, binder)
  {
    hide Object.Refs, ObjectOf;
    if table != [] {
      var off := table[|table| - 1];
      TableRefsPut(c, pos, bs, table[..|table| - 1], binder);
      assert Put(c, pos, bs)[off..off + OBJECT_SIZE] == c[off..off + OBJECT_SIZE];
    }
  }

  /** Rewriting the last word of a padded area with its pad bytes cleared. */
  lemma PadLast(whole: seq<Byte>, pos: nat, len: nat)
    requires pos + PadSize(len) <= |whole| && PadSize(len) != len
    ensures Put(whole, pos + PadSize(len) - 4, whole[pos + PadSize(len) - 4..pos + len] + Zeros(PadSize(len) - len))
         == Put(whole, pos, Padded(whole[pos..pos + len]))
  {
  }

  /** Writing into the whole buffer, seen from its data. */
  lemma PutTake(whole: seq<Byte>, size: nat, pos: nat, bs: seq<Byte>)
    requires pos <= size <= |whole| && pos + |bs| <= |whole|
    ensures Put(whole, pos, bs)[..Max(size, pos + |bs|)] == Put(whole[..size], pos, bs)
  {
  }

  lemma PutSame(whole: seq<Byte>, pos: nat, len: nat)
    requires pos + len <= |whole| && PadSize(len) == len
    ensures Put(whole, pos, Padded(whole[pos..pos + len])) == whole
  {
  }

  lemma PutOver(c: seq<Byte>, pos: nat, some: seq<Byte>, bs: seq<Byte>)
    requires pos <= |c| && |some| == |bs|
    ensures Put(Put(c, pos, Padded(some)), pos, bs) == Put(c, pos, Padded(bs))
  {
  }

  lemma PutPut(c: seq<Byte>, pos: nat, a: seq<Byte>, b: seq<Byte>)
    requires pos <= |c|
    ensures Put(Put(c, pos, a), pos + |a|, b) == Put(c, pos, a + b)
  {
  }

  /** growData accepts: the size it computes is over the old one and within the limit. */
  predicate GrowthFits(size: nat, len: nat) {
    len <= INT32_MAX && size < (size + len) * 3 / 2 <= INT32_MAX
  }

  lemma TableNeedsRoom(table: seq<nat>, limit: nat)
    requires forall i :: 0 <= i < |table| ==> table[i] + OBJECT_SIZE <= limit
    ensures table == [] || limit >= OBJECT_SIZE
  {
    if table != [] { assert table[0] + OBJECT_SIZE <= limit; }
  }

  lemma KeptNothing(table: seq<nat>, size: nat)
    requires Ordered(table, size)
    ensures Kept(table, 0, size) == 0
  {
    if table != [] { assert table[0] + OBJECT_SIZE <= size; }
  }

  lemma TableInside(table: seq<nat>, limit: nat)
    requires Ordered(table, limit)
    ensures forall i :: 0 <= i < |table| ==> table[i] + OBJECT_SIZE <= limit
  {
  }

  /** The entries that continueWrite keeps end within the new size exactly when the cut spares every object. */
  lemma KeptFit(table: seq<nat>, desired: nat, size: nat)
    requires Ordered(table, size)
    ensures var kept := table[..Kept(table, desired, size)];
            (forall i :: 0 <= i < |kept| ==> kept[i] + OBJECT_SIZE <= desired)
            <==> (forall i :: 0 <= i < |table| ==> table[i] + OBJECT_SIZE <= desired || desired <= table[i])
    ensures (forall i :: 0 <= i < |table| ==> table[i] + OBJECT_SIZE <= desired || desired <= table[i]) ==>
              Ordered(table[..Kept(table, desired, size)], Min(size, desired))
  {
    hide Kept;
    forall i | 0 <= i < |table| ensures i < Kept(table, desired, size) <==> table[i] < desired {
      KeptIsExact(table, desired, size, i);
    }
  }
}
