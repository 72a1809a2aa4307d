/** Two ways in which the calls of Parcel.c break a parcel: a shrink through a recorded object followed by a write, and
    an object written into a parcel that has just left the driver. */
module ParcelCuts {
  import opened Sums
  import opened ParcelCodec
  import opened Parcel

  // ---------------------------------------------------------------- cutting an object

  /** A record whose first bytes are `kept` may still be a local binder: what is left of its type agrees, and its
      binder word, once all there, is not null. */
  predicate CanBeBinder(kept: seq<Byte>) {
    && kept[..Min(|kept|, 4)] <= Word(BINDER_TYPE_BINDER, 4)
    && (|kept| >= 16 ==> Value(kept[8..16]) != 0)
  }

  /** What the table entry at `off` stands for can change after a cut at `desired`, for some binder, if and only if
      the kept bytes may be those of a local binder. The entry stays in the table. */
  lemma CutBreaksLedger(c: seq<Byte>, table: seq<nat>, k: nat, desired: nat)
    requires Ordered(table, |c|) && k < |table| && table[k] < desired < table[k] + OBJECT_SIZE
    ensures k < Kept(table, desired, |c|)
    ensures (exists bs: seq<Byte>, binder: nat :: table[k] + OBJECT_SIZE == desired + |bs|
               && EntryRefs(c[..desired] + bs, table[k], binder) != EntryRefs(c, table[k], binder))
       <==> CanBeBinder(c[table[k]..desired])
  {
    hide ObjectOf, EntryRefs, CanBeBinder;
    var off := table[k];
    KeptIsExact(table, desired, |c|, k);
    if CanBeBinder(c[off..desired]) {
      var bs, binder := Spoil(c, off, desired);
    } else {
      forall bs: seq<Byte>, binder: nat | off + OBJECT_SIZE == desired + |bs|
        ensures EntryRefs(c[..desired] + bs, off, binder) == EntryRefs(c, off, binder)
      {
        NeverBinder(c, off, desired, binder);
        assert (c[..desired] + bs)[off..desired] == c[off..desired];
        NeverBinder(c[..desired] + bs, off, desired, binder);
      }
    }
  }

  /** Bytes that change what the entry stands for. */
  lemma Spoil(c: seq<Byte>, off: nat, desired: nat) returns (bs: seq<Byte>, binder: nat)
    requires off < desired < off + OBJECT_SIZE <= |c| && CanBeBinder(c[off..desired])
    ensures off + OBJECT_SIZE == desired + |bs|
    ensures EntryRefs(c[..desired] + bs, off, binder) != EntryRefs(c, off, binder)
  {
    hide ObjectOf, CanBeBinder;
    var o := ObjectAt(c, off);
    if o.IsLocalBinder() {
      var end := off + OBJECT_SIZE;
      var last: Byte := if c[end - 1] == 0 then 1 else 0;
      bs, binder := c[desired..end - 1] + [last], o.cookie;
      assert c[..desired] + bs == c[..end - 1] + [last];
      LastByteChanges(c, off, last);
    } else {
      bs := Completion(c[off..desired]);
      var d := c[..desired] + bs;
      assert d[off..off + OBJECT_SIZE] == c[off..desired] + bs;
      binder := ObjectAt(d, off).cookie;
    }
  }

  /** Any bytes that may begin a local binder can be completed to one. */
  lemma Completion(kept: seq<Byte>) returns (bs: seq<Byte>)
    requires 0 < |kept| < OBJECT_SIZE && CanBeBinder(kept)
    ensures |kept| + |bs| == OBJECT_SIZE && ObjectOf(kept + bs).IsLocalBinder()
  {
    hide Value, Word;
    var rec := seq(OBJECT_SIZE, i requires 0 <= i < OBJECT_SIZE =>
      if i < |kept| then kept[i] else if i < 4 then Word(BINDER_TYPE_BINDER, 4)[i] else 1);
    bs := rec[|kept|..];
    assert kept + bs == rec;
    forall i | 0 <= i < 4 ensures rec[i] == Word(BINDER_TYPE_BINDER, 4)[i] {
      if i < |kept| { assert kept[..Min(|kept|, 4)][i] == kept[i]; }
    }
    assert rec[..4] == Word(BINDER_TYPE_BINDER, 4);
    Pow256Values();
    WordRoundTrip(BINDER_TYPE_BINDER, 4);
    if |kept| >= 16 {
      assert rec[8..16] == kept[8..16];
    } else {
      LastByteCounts(rec[8..16]);
    }
  }

  lemma {:induction false} LastByteCounts(bs: seq<Byte>)
    requires |bs| > 0 && bs[|bs| - 1] != 0
    ensures Value(bs) != 0
  {
    if |bs| > 1 { LastByteCounts(bs[1..]); }
  }

  /** A record that begins otherwise is no local binder. */
  lemma NeverBinder(c: seq<Byte>, off: nat, desired: nat, binder: nat)
    requires off < desired < off + OBJECT_SIZE <= |c| && !CanBeBinder(c[off..desired])
    ensures EntryRefs(c, off, binder) == 0
  {
    hide Value, Word;
    var rec, kept := c[off..off + OBJECT_SIZE], c[off..desired];
    ValueDecides(rec[..4], BINDER_TYPE_BINDER);
    assert kept == rec[..|kept|];
    assert kept[..Min(|kept|, 4)] == rec[..4][..Min(|kept|, 4)];
    if |kept| >= 16 { assert kept[8..16] == rec[..|kept|][8..16] == rec[8..16]; }
  }

  /** The last byte of a record belongs to its cookie. */
  lemma LastByteChanges(c: seq<Byte>, off: nat, last: Byte)
    requires off + OBJECT_SIZE <= |c| && last != c[off + OBJECT_SIZE - 1]
    ensures ObjectAt(c[..off + OBJECT_SIZE - 1] + [last], off).cookie != ObjectAt(c, off).cookie
  {
    hide Value;
    var d := c[..off + OBJECT_SIZE - 1] + [last];
    var before, after := c[off..off + OBJECT_SIZE], d[off..off + OBJECT_SIZE];
    forall i | 0 <= i < OBJECT_SIZE - 1 ensures before[i] == after[i] {
      assert before[i] == c[off + i] && after[i] == d[off + i] == c[off + i];
    }
    assert before[23] == c[off + 23] && after[23] == d[off + 23];
    ValueDiffers(before[16..], after[16..]);
  }

  lemma {:induction false} ValueDiffers(a: seq<Byte>, b: seq<Byte>)
    requires |a| == |b| > 0 && a[..|a| - 1] == b[..|b| - 1] && a[|a| - 1] != b[|b| - 1]
    ensures Value(a) != Value(b)
  {
    if |a| == 1 {
      assert a[1..] == [] && b[1..] == [];
    } else {
      assert a[0] == a[..|a| - 1][0] == b[0];
      assert a[1..][..|a| - 2] == a[..|a| - 1][1..] == b[1..][..|b| - 2];
      ValueDiffers(a[1..], b[1..]);
    }
  }

  /** The calls that do it: setDataSize through object `k`, setDataPosition to the cut, and a write of the rest of the
      record. The ledger still holds if and only if the entry stands for what it stood for. */
  method CutAndRefill(p: Buffer, ghost k: nat, desired: nat, bs: seq<Byte>)
    requires p.Bounded() && p.Orderly() && !p.mForeign && k < |p.mObjects|
    requires p.mObjects[k] < desired && desired + |bs| == p.mObjects[k] + OBJECT_SIZE && |bs| > 0
    modifies p, p.mData
    ensures p.Bounded() && p.mObjects == old(p.mObjects)[..k + 1] && Ordered(p.mObjects, p.mDataSize)
    ensures p.Contents() == old(p.Contents())[..desired] + bs
    ensures p.refs == old(TableRefs(p.Contents(), p.mObjects[..k + 1], p.binder))
    ensures var changed := EntryRefs(p.Contents(), p.mObjects[k], p.binder)
                        != old(EntryRefs(p.Contents(), p.mObjects[k], p.binder));
            p.Orderly() <==> !changed
  {
    hide EntryRefs, TableRefs, Put, ObjectAt, Buffer.Orderly;
    ghost var c, table := p.Contents(), p.mObjects;
    OrderlyMeans(p);
    Cut(p, k, desired);
    var status := p.WriteAligned(bs);
    PutAtEnd(c[..desired], bs);
    OrderlyMeans(p);
    CutAccount(c, p.Contents(), p.mObjects, k, p.binder);
  }

  lemma OrderlyMeans(p: Buffer)
    requires p.Bounded()
    ensures p.Orderly() ==> Ordered(p.mObjects, p.mDataSize)
    ensures !p.mForeign && Ordered(p.mObjects, p.mDataSize) ==>
              (p.Orderly() <==> p.refs == TableRefs(p.Contents(), p.mObjects, p.binder))
  {
  }

  /** The cut leaves the cursor there and releases the dropped entries only. */
  method Cut(p: Buffer, ghost k: nat, desired: nat)
    requires p.Bounded() && p.Orderly() && !p.mForeign && k < |p.mObjects|
    requires p.mObjects[k] < desired < p.mObjects[k] + OBJECT_SIZE
    modifies p
    ensures p.Bounded() && !p.mForeign && (p.mData == old(p.mData) || fresh(p.mData))
    ensures p.mObjects == old(p.mObjects)[..k + 1] && Ordered(old(p.mObjects)[..k + 1], p.mObjects[k] + OBJECT_SIZE)
    ensures p.Contents() == old(p.Contents())[..desired] && p.mDataPos == p.mDataSize == desired
    ensures p.refs == old(TableRefs(p.Contents(), p.mObjects[..k + 1], p.binder)) && p.Capacity() == old(p.Capacity())
  {
    hide EntryRefs, TableRefs, ObjectAt, Kept;
    ghost var c := p.Contents();
    KeptThrough(p.mObjects, k, desired, p.mDataSize);
    var status := p.SetDataSize(desired);
    assert p.Contents() == p.Contents()[..desired] == c[..desired];
    p.SetDataPosition(desired);
  }

  /** A cut through entry `k` keeps the entries up to it. */
  lemma KeptThrough(table: seq<nat>, k: nat, desired: nat, size: nat)
    requires Ordered(table, size) && k < |table| && table[k] < desired < table[k] + OBJECT_SIZE
    ensures Kept(table, desired, size) == k + 1
  {
    KeptIsExact(table, desired, size, k);
    if k + 1 < |table| { KeptIsExact(table, desired, size, k + 1); }
  }

  lemma PutAtEnd(c: seq<Byte>, bs: seq<Byte>)
    ensures Put(c, |c|, bs) == c + bs
  {
  }

  /** Two contents that agree before the last entry differ by what that entry stands for. */
  lemma CutAccount(c: seq<Byte>, d: seq<Byte>, table: seq<nat>, k: nat, binder: nat)
    requires |table| == k + 1 && Ordered(table, |c|) && Ordered(table, |d|) && c[..table[k]] == d[..table[k]]
    ensures TableRefs(c, table, binder) - EntryRefs(c, table[k], binder)
         == TableRefs(d, table, binder) - EntryRefs(d, table[k], binder)
  {
    hide EntryRefs;
    TableRefsFrame(c, d, table[..k], table[k], binder);
  }

  /** A run that breaks the ledger: a local binder in a new parcel, the last four bytes of its record cut off, and any
      other four bytes written. The reference taken for it is then counted for no entry. */
  method BrokenLedger(val: Object, bs: seq<Byte>) returns (p: Buffer)
    requires val.Fits() && val.IsLocalBinder() && |bs| == 4
    ensures p.Bounded() && p.refs == 1 && p.mObjects == [0]
    ensures p.Contents() == ObjectBytes(val)[..20] + bs
    ensures p.Orderly() <==> bs == ObjectBytes(val)[20..]
  {
    hide EntryRefs, TableRefs, ObjectBytes, ObjectAt, Put, Object.Refs;
    p := OneBinder(val);
    assert p.mObjects[..1] == [0];
    CutAndRefill(p, 0, 20, bs);
    LastWord(val, bs);
  }

  /** A new parcel with one object, counted for its own binder. */
  method OneBinder(val: Object) returns (p: Buffer)
    requires val.Fits() && val.IsLocalBinder()
    ensures fresh(p) && fresh(p.mData) && p.Bounded() && p.Orderly() && !p.mForeign && p.binder == val.cookie
    ensures p.mObjects == [0] && p.Contents() == ObjectBytes(val) && p.refs == 1
    ensures TableRefs(p.Contents(), [0], p.binder) == 1
  {
    hide TableRefs, ObjectBytes, ObjectOf;
    p := new Buffer(val.cookie);
    var r := p.WriteObject(val, false);
    assert p.Contents() == ObjectBytes(val);
    ObjectRoundTrip(val);
    assert ObjectBytes(val)[0..OBJECT_SIZE] == ObjectBytes(val);
    OneEntry(p.Contents(), p.binder);
  }

  lemma OneEntry(c: seq<Byte>, binder: nat)
    requires OBJECT_SIZE <= |c|
    ensures TableRefs(c, [0], binder) == EntryRefs(c, 0, binder)
  {
    hide EntryRefs;
    assert [0][..0] == [];
  }

  /** Another last word is another cookie. */
  lemma LastWord(val: Object, bs: seq<Byte>)
    requires val.Fits() && val.IsLocalBinder() && |bs| == 4
    ensures var c := ObjectBytes(val);
            && EntryRefs(c, 0, val.cookie) == 1
            && (EntryRefs(c[..20] + bs, 0, val.cookie) == 1 <==> bs == c[20..])
  {
    hide Value, Word;
    var c := ObjectBytes(val);
    var d := c[..20] + bs;
    ObjectRoundTrip(val);
    assert c[0..24] == c && d[0..24] == d;
    assert d[..4] == c[..4] && d[8..16] == c[8..16] && d[16..] == c[16..20] + bs && c[16..] == c[16..20] + c[20..];
    ValueDecides(d[16..], val.cookie);
    ValueDecides(c[16..], val.cookie);
    if d[16..] == c[16..] { assert bs == d[16..][4..] == c[16..][4..] == c[20..]; }
  }

  // ---------------------------------------------------------------- storing outside the table

  /** A run in which writeObject stores outside its table: the driver hands over a buffer whose one object is of an
      unknown type, which empties the table and leaves its capacity; then an object is written at the end. */
  method StoreOutside(data: array<Byte>, val: Object) returns (r: Stored)
    requires OBJECT_SIZE <= data.Length && GrowthFits(data.Length, POINTER_SIZE)
    requires !KnownType(ObjectAt(data[..], 0).ty) && val.Fits() && val.binder != 0
    modifies data
    ensures r == StoredOutside
  {
    hide EntryRefs, TableRefs, ObjectAt;
    var p := new Buffer(0);
    p.IpcSetDataReference(data, [0]);
    assert [0][0] == 0;
    p.SetDataPosition(data.Length);
    r := p.WriteObject(val, false);
  }
}
