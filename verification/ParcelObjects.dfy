/** Objects from one parcel to another: what writeObject records, the driver hands over and readObject gives back. */
module ParcelObjects {
  import opened Sums
  import opened ParcelCodec
  import opened Parcel

  /** An object, and whether its writer and its reader ask for meta-data on a null binder too. */
  datatype Sent = Sent(val: Object, nullMetaData: bool) {
    predicate Valid() {
      val.Fits() && (val.ty == BINDER_TYPE_BINDER || val.ty == BINDER_TYPE_HANDLE || val.ty == BINDER_TYPE_FD)
    }

    predicate InTable() { Recorded(val, nullMetaData) }
  }

  /** The data holds the objects one after the other. */
  predicate Holds(c: seq<Byte>, sent: seq<Sent>) {
    |c| == OBJECT_SIZE * |sent| && forall i :: 0 <= i < |sent| ==> ObjectAt(c, OBJECT_SIZE * i) == sent[i].val
  }

  /** The table lists the recorded ones among the first `n`. */
  predicate Lists(table: seq<nat>, sent: seq<Sent>, n: nat)
    requires n <= |sent|
  {
    && (forall i :: 0 <= i < n ==> (OBJECT_SIZE * i in table <==> sent[i].InTable()))
    && (forall j :: 0 <= j < |table| ==> table[j] % OBJECT_SIZE == 0 && table[j] / OBJECT_SIZE < n)
  }

  /** One more object at the end. */
  lemma HoldsNext(c: seq<Byte>, sent: seq<Sent>, o: Sent)
    requires Holds(c, sent) && o.Valid()
    ensures Holds(Put(c, |c|, ObjectBytes(o.val)), sent + [o])
  {
    hide ObjectBytes, ObjectOf, Object.Fits;
    var d := Put(c, |c|, ObjectBytes(o.val));
    forall i | 0 <= i < |sent + [o]| ensures ObjectAt(d, OBJECT_SIZE * i) == (sent + [o])[i].val {
      var at := OBJECT_SIZE * i;
      if i < |sent| {
        assert d[at..at + OBJECT_SIZE] == c[at..at + OBJECT_SIZE];
        assert ObjectAt(c, at) == sent[i].val;
      } else {
        assert d[at..at + OBJECT_SIZE] == ObjectBytes(o.val);
        ObjectRoundTrip(o.val);
      }
    }
  }

  lemma ListsNext(table: seq<nat>, sent: seq<Sent>, n: nat)
    requires n < |sent| && Lists(table, sent, n)
    ensures Lists(table + (if sent[n].InTable() then [OBJECT_SIZE * n] else []), sent, n + 1)
  {
    hide Sent.InTable;
    var next := table + (if sent[n].InTable() then [OBJECT_SIZE * n] else []);
    assert forall j :: 0 <= j < |table| ==> table[j] < OBJECT_SIZE * n;
    forall i | 0 <= i < n + 1 ensures OBJECT_SIZE * i in next <==> sent[i].InTable() {
    }
  }

  /** Writing objects one after the other into a new parcel. */
  method WriteObjects(sent: seq<Sent>) returns (p: Buffer)
    requires forall i :: 0 <= i < |sent| ==> sent[i].Valid()
    requires OBJECT_SIZE * |sent| * 3 / 2 <= INT32_MAX
    ensures fresh(p) && p.Bounded() && p.Orderly() && Holds(p.Contents(), sent) && Lists(p.mObjects, sent, |sent|)
  {
    hide Holds, Lists, ObjectBytes, Recorded, Sent.InTable, Put, Ordered, TableRefs, Object.Fits, KnownType;
    p := new Buffer(0);
    NothingSent(sent);
    for i := 0 to |sent|
      invariant fresh(p) && (p.mData == null || fresh(p.mData)) && p.Bounded() && p.Orderly() && !p.mForeign
      invariant p.mDataPos == p.mDataSize == OBJECT_SIZE * i && p.mAllowFds
      invariant Holds(p.Contents(), sent[..i]) && Lists(p.mObjects, sent, i)
    {
      ghost var c, table := p.Contents(), p.mObjects;
      var r := p.WriteObject(sent[i].val, sent[i].nullMetaData);
      assert sent[..i + 1] == sent[..i] + [sent[i]];
      HoldsNext(c, sent[..i], sent[i]);
      ListsNext(table, sent, i);
      Appends(c, sent[i]);
      assert p.mObjects == table + (if sent[i].InTable() then [OBJECT_SIZE * i] else []) by { InTableMeans(sent[i]); }
    }
    assert sent[..|sent|] == sent;
  }

  lemma NothingSent(sent: seq<Sent>)
    ensures Holds([], sent[..0]) && Lists([], sent, 0)
  {
  }

  lemma Appends(c: seq<Byte>, o: Sent)
    ensures |Put(c, |c|, ObjectBytes(o.val))| == |c| + OBJECT_SIZE
  {
  }

  lemma InTableMeans(o: Sent)
    ensures o.InTable() == Recorded(o.val, o.nullMetaData)
  {
  }

  /** A receiver accepts the whole table of such a parcel. */
  lemma TableIsValid(c: seq<Byte>, table: seq<nat>, sent: seq<Sent>)
    requires Holds(c, sent) && Lists(table, sent, |sent|) && Ordered(table, |c|)
    requires forall i :: 0 <= i < |sent| ==> sent[i].Valid()
    ensures ValidTable(c, table)
  {
    hide ObjectAt, Object.Fits;
    forall j | 0 <= j < |table| ensures KnownType(ObjectAt(c, table[j]).ty) {
      var i := table[j] / OBJECT_SIZE;
      assert table[j] == OBJECT_SIZE * i && sent[i].Valid();
    }
  }

  /** The driver's copy of a parcel in the receiving process, and the matching reads. Every object comes back as it was
      written, save those that writeObject leaves out of the table and that are not null. */
  method Transfer(sent: seq<Sent>) returns (got: seq<Found>)
    requires forall i :: 0 <= i < |sent| ==> sent[i].Valid()
    requires OBJECT_SIZE * |sent| * 3 / 2 <= INT32_MAX
    ensures |got| == |sent|
    ensures forall i :: 0 <= i < |sent| ==>
              var o := sent[i].val;
              got[i] == if sent[i].nullMetaData || o.binder != 0 || o.cookie == 0 then Found(o) else Nothing
  {
    hide Lists, Put, Ordered, TableRefs, ValidTable, Object.Fits, KnownType, ObjectAt;
    var p := WriteObjects(sent);
    var q := Deliver(p, sent);
    got := [];
    for i := 0 to |sent|
      invariant q.Bounded() && fresh(q) && q.mDataPos == OBJECT_SIZE * i && |got| == i
      invariant Holds(q.Contents(), sent) && Lists(q.mObjects, sent, |sent|) && Ordered(q.mObjects, q.mDataSize)
      invariant forall k :: 0 <= k < i ==> got[k] == Expected(sent[k])
    {
      ListedOrNot(q.mObjects, sent, i);
      var found := q.ReadObject(sent[i].nullMetaData);
      assert ObjectAt(q.Contents(), OBJECT_SIZE * i) == sent[i].val;
      got := got + [found];
    }
  }

  function Expected(o: Sent): Found {
    if o.nullMetaData || o.val.binder != 0 || o.val.cookie == 0 then Found(o.val) else Nothing
  }

  lemma ListedOrNot(table: seq<nat>, sent: seq<Sent>, i: nat)
    requires i < |sent| && Lists(table, sent, |sent|)
    ensures OBJECT_SIZE * i in table <==> sent[i].nullMetaData || sent[i].val.binder != 0
  {
  }

  method Deliver(p: Buffer, ghost sent: seq<Sent>) returns (q: Buffer)
    requires p.Bounded() && p.Orderly() && Holds(p.Contents(), sent) && Lists(p.mObjects, sent, |sent|)
    requires forall i :: 0 <= i < |sent| ==> sent[i].Valid()
    ensures fresh(q) && q.Bounded() && q.mDataPos == 0 && Holds(q.Contents(), sent)
    ensures Lists(q.mObjects, sent, |sent|) && Ordered(q.mObjects, q.mDataSize)
  {
    hide Lists, Holds, TableRefs, ValidTable, ObjectAt;
    var data := new Byte[p.mDataSize];
    if p.mData != null {
      forall i | 0 <= i < p.mDataSize { data[i] := p.mData[i]; }
    }
    assert data[..] == p.Contents();
    TableIsValid(data[..], p.mObjects, sent);
    q := new Buffer(0);
    q.IpcSetDataReference(data, p.mObjects);
  }
}
