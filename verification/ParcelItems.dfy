/** Typed reads and writes of Parcel.c, and the round trip between them. */
module ParcelItems {
  import opened Sums
  import opened ParcelCodec
  import opened Parcel

  const STRING_CAPACITY: nat := 64

  datatype Item = I32(i: Int32) | Flag(b: bool) | Pointer(p: nat) | Raw(bytes: seq<Byte>) | Str(s: seq<Byte>) {
    /** Machine words, bytes within the limit, and NUL-free strings that a String can hold. */
    predicate Valid() {
      match this
      case Pointer(p) => p < 0x1_0000_0000_0000_0000
      case Raw(bytes) => |bytes| <= INT32_MAX
      case Str(s) => |s| < STRING_CAPACITY && 0 !in s
      case _ => true
    }

    function Kind(): Kind {
      match this
      case I32(_) => KI32
      case Flag(_) => KFlag
      case Pointer(_) => KPointer
      case Raw(bytes) => KRaw(|bytes|)
      case Str(_) => KStr
    }
  }

  datatype Kind = KI32 | KFlag | KPointer | KRaw(len: nat) | KStr

  function StrBytes(s: seq<Byte>): seq<Byte>
    requires |s| <= STRING_CAPACITY
  {
    Int32Bytes(|s|) + Padded(s + [0])
  }

  function Encode(item: Item): seq<Byte>
    requires item.Valid()
  {
    match item
    case I32(i) => Int32Bytes(i)
    case Flag(b) => Int32Bytes(if b then 1 else 0)
    case Pointer(p) => Word(p, 8)
    case Raw(bytes) => Padded(bytes)
    case Str(s) => StrBytes(s)
  }

  /** A read's outcome: a value, a failure, or the abort on a string without its terminator. */
  datatype Outcome<+T> = Got(value: T, end: nat) | Failed(status: Int32, end: nat) | Aborted {
    function Map<U>(f: T -> U): Outcome<U> {
      match this
      case Got(v, end) => Got(f(v), end)
      case Failed(st, end) => Failed(st, end)
      case Aborted => Aborted
    }
  }

  function Int32At(c: seq<Byte>, pos: nat): (r: Outcome<Int32>)
    ensures r.Got? || r == Failed(STATUS_NOT_ENOUGH_DATA, pos)
  {
    if pos + 4 <= |c| then Got(Int32Of(c[pos..pos + 4]), pos + 4) else Failed(STATUS_NOT_ENOUGH_DATA, pos)
  }

  function StrAt(c: seq<Byte>, pos: nat): (r: Outcome<seq<Byte>>)
    ensures r.Failed? ==> r.status == STATUS_BAD_VALUE
    ensures !r.Aborted? && pos <= |c| ==> r.end <= |c|
  {
    match Int32At(c, pos)
    case Failed(_, _) => Failed(STATUS_BAD_VALUE, pos)
    case Got(size, at) =>
      if size < 0 || size == INT32_MAX || at + PadSize(size + 1) > |c| then Failed(STATUS_BAD_VALUE, at)
      else if c[at + size] != 0 then Aborted
      else Got(CString(c[at..at + size]), at + PadSize(size + 1))
  }

  /** What reading an item of kind `k` at `pos` gives. */
  function Decode(k: Kind, c: seq<Byte>, pos: nat): Outcome<Item>
  {
    match k
    case KI32 => Int32At(c, pos).Map(v => I32(v))
    case KFlag => Int32At(c, pos).Map(v => Flag(v != 0))
    case KPointer =>
      if pos + 8 <= |c| then Got(Pointer(Value(c[pos..pos + 8])), pos + 8) else Got(Pointer(0), pos)
    case KRaw(len) =>
      if len > INT32_MAX then Failed(STATUS_BAD_VALUE, pos)
      else if pos + PadSize(len) <= |c| then Got(Raw(c[pos..pos + len]), pos + PadSize(len))
      else Failed(STATUS_NOT_ENOUGH_DATA, pos)
    case KStr => StrAt(c, pos).Map(s => Str(s))
  }

  /** A flag is false exactly when its four bytes are zero, whoever wrote it. */
  lemma FlagIsAnyBit(c: seq<Byte>, pos: nat)
    requires pos + 4 <= |c|
    ensures Decode(KFlag, c, pos) == Got(Flag(c[pos..pos + 4] != [0, 0, 0, 0]), pos + 4)
  {
    var bs := c[pos..pos + 4];
    ValueDecides(bs, 0);
    assert Word(0, 4) == [0, 0, 0, 0];
    Pow256Values();
    ValueBound(bs);
    if bs == [0, 0, 0, 0] { assert bs == Word(0, 4); WordRoundTrip(0, 4); }
  }

  lemma StrRoundTrip(s: seq<Byte>, c: seq<Byte>, pos: nat)
    requires |s| <= STRING_CAPACITY && 0 !in s
    requires pos + |StrBytes(s)| <= |c| && c[pos..pos + |StrBytes(s)|] == StrBytes(s)
    ensures StrAt(c, pos) == Got(s, pos + |StrBytes(s)|)
  {
    hide Int32Bytes, Int32Of;
    var bs := StrBytes(s);
    assert c[pos..pos + 4] == bs[..4] == Int32Bytes(|s|);
    Int32RoundTrip(|s|);
    var body := c[pos + 4..pos + |bs|];
    assert body == bs[4..] == Padded(s + [0]);
    assert c[pos + 4..pos + 4 + |s|] == body[..|s|] == s;
    assert c[pos + 4 + |s|] == body[|s|] == 0;
  }

  /** Reading what was written gives the item back and stops where its bytes stop. */
  lemma {:induction false} DecodeEncode(item: Item, c: seq<Byte>, pos: nat)
    requires item.Valid() && pos + |Encode(item)| <= |c| && c[pos..pos + |Encode(item)|] == Encode(item)
    ensures Decode(item.Kind(), c, pos) == Got(item, pos + |Encode(item)|)
  {
    hide Value, Word, Int32Bytes, Int32Of, StrAt, StrBytes;
    match item {
      case I32(i) => Int32RoundTrip(i);
      case Flag(b) => Int32RoundTrip(if b then 1 else 0);
      case Pointer(p) =>
        Pow256Values();
        WordRoundTrip(p, 8);
      case Raw(bytes) =>
        assert c[pos..pos + |bytes|] == Encode(item)[..|bytes|];
      case Str(s) => StrRoundTrip(s, c, pos);
    }
  }

  // ---------------------------------------------------------------- writing

  /** Enough room for `n` more bytes whatever the capacity: three halves of the new size stay within the limit. */
  ghost predicate HasRoom(p: Buffer, n: nat)
    reads p`mDataSize
  {
    (p.mDataSize + n) * 3 / 2 <= INT32_MAX
  }

  method WriteInt32(p: Buffer, val: Int32) returns (status: int)
    requires p.Bounded() && (p.mForeign ==> p.mDataPos + 4 > p.Capacity())
    modifies p, p.mData
    ensures p.Bounded() && (p.mData == old(p.mData) || fresh(p.mData)) && p.SameTable()
    ensures status == STATUS_OK <==> old(p.Fits(4))
    ensures status == STATUS_OK ==> p.Wrote(Int32Bytes(val)) && !p.mForeign && p.Room() == old(p.Room()).After(4)
    ensures status != STATUS_OK ==> p.SameData() && unchanged(p) && status == STATUS_BAD_VALUE
    ensures old(p.Orderly() && p.Spares(4)) ==> p.Orderly()
  {
    status := p.WriteAligned(Int32Bytes(val));
  }

  /** Parcel_writeString16. Only the length word is written when there is room for it and not for the characters
      after it; what is reported then is the recorded error, which may be STATUS_OK. */
  method WriteString16(p: Buffer, s: seq<Byte>) returns (status: int)
    requires p.Bounded() && |s| <= STRING_CAPACITY && (p.mForeign ==> p.mDataPos + 4 > p.Capacity())
    modifies p, p.mData
    ensures p.Bounded() && (p.mData == old(p.mData) || fresh(p.mData)) && p.SameTable()
    ensures var room, n := old(p.Room()), PadSize(|s| + 1);
            if !room.Takes(4) then
              p.SameData() && unchanged(p) && status == STATUS_BAD_VALUE
            else if !room.After(4).Takes(n) then
              p.Wrote(Int32Bytes(|s|)) && status == old(p.mError) && p.Room() == room.After(4) && !p.mForeign
            else
              p.Wrote(StrBytes(s)) && status == STATUS_OK && p.Room() == room.After(4).After(n) && !p.mForeign
    ensures old(p.Orderly() && p.mDataPos == p.mDataSize) ==> p.Orderly()
  {
    hide EntryRefs, TableRefs, Put, Padded, Int32Bytes, Ordered, GrowthFits, Space.After, Space.Takes;
    hide Buffer.Orderly, Buffer.Spares, Buffer.SameData, Buffer.Contents;
    ghost var c := p.Contents();
    if p.Orderly() && p.mDataPos == p.mDataSize { AppendSpares(p, 4); }
    status := WriteInt32(p, |s|);
    if status == STATUS_OK {
      status := WriteTerminated(p, s);
      PutPut(c, old(p.mDataPos), Int32Bytes(|s|), Padded(s + [0]));
    } else {
      assert unchanged(p);
    }
  }

  /** The characters and the terminator, after the length word. */
  method WriteTerminated(p: Buffer, s: seq<Byte>) returns (status: int)
    requires p.Bounded() && !p.mForeign && |s| <= STRING_CAPACITY
    modifies p, p.mData
    ensures p.Bounded() && (p.mData == old(p.mData) || fresh(p.mData)) && p.SameTable() && !p.mForeign
    ensures if old(p.Room()).Takes(PadSize(|s| + 1))
            then p.Wrote(Padded(s + [0])) && status == STATUS_OK && p.Room() == old(p.Room()).After(PadSize(|s| + 1))
            else unchanged(p) && p.Contents() == old(p.Contents()) && status == p.mError
    ensures old(p.Orderly() && p.mDataPos == p.mDataSize) ==> p.Orderly()
  {
    hide EntryRefs, TableRefs, Put, Padded, Ordered, Buffer.Orderly, Buffer.Spares, Space.After, Space.Takes;
    var n := PadSize(|s| + 1);
    if p.Orderly() && p.mDataPos == p.mDataSize { AppendSpares(p, n); }
    status := p.Write(s + [0]);
  }

  /** An input for which a string is reported as written and only its length is there, so that reading it fails: an
      empty string, four bytes of spare capacity, and a size whose three halves pass the limit. */
  method HalfAString() returns (p: Buffer, status: int)
    ensures p.Bounded() && status == STATUS_OK && p.mDataSize == 0x5555_555c
    ensures StrAt(p.Contents(), 0x5555_5558) == Failed(STATUS_BAD_VALUE, 0x5555_555c)
  {
    hide EntryRefs, TableRefs, Int32Bytes, Int32Of;
    p := new Buffer(0);
    status := p.SetDataCapacity(0x5555_555c);
    status := p.SetDataSize(0x5555_5558);
    p.SetDataPosition(0x5555_5558);
    ghost var c := p.Contents();
    status := WriteString16(p, []);
    Int32RoundTrip(0);
    assert p.Contents()[0x5555_5558..0x5555_555c] == Int32Bytes(0) by {
      assert p.Contents() == Put(c, 0x5555_5558, Int32Bytes(0));
    }
  }

  /** Appending never touches a recorded object. */
  lemma AppendSpares(p: Buffer, n: nat)
    requires p.Bounded() && p.Orderly() && p.mDataPos == p.mDataSize
    ensures p.Spares(n)
  {
  }

  function EncodeAll(items: seq<Item>): seq<Byte>
    requires forall i :: 0 <= i < |items| ==> items[i].Valid()
  {
    if items == [] then [] else EncodeAll(items[..|items| - 1]) + Encode(items[|items| - 1])
  }

  /** The effect of appending `bs`. */
  twostate predicate Appended(p: Buffer, bs: seq<Byte>)
    requires old(p.mDataSize <= p.Capacity()) && p.mDataSize <= p.Capacity()
    reads p, p.mData
  {
    p.Contents() == old(p.Contents()) + bs && p.mDataPos == p.mDataSize && !p.mForeign && p.SameTable()
  }

  /** One piece of what a typed write appends; a soft one is written by writeInplace, whose refusal makes the write
      report the recorded error. */
  datatype Part = Part(bytes: seq<Byte>, soft: bool)

  datatype Emitted = Emitted(bytes: seq<Byte>, status: int, room: Space)

  /** What writing the parts one after the other appends: an error ends it, a refused soft part without one is left
      out. */
  function Emit(room: Space, parts: seq<Part>, error: int): Emitted
    decreases |parts|
  {
    if parts == [] then Emitted([], STATUS_OK, room)
    else if room.Takes(|parts[0].bytes|) then
      var rest := Emit(room.After(|parts[0].bytes|), parts[1..], error);
      rest.(bytes := parts[0].bytes + rest.bytes)
    else if !parts[0].soft then Emitted([], STATUS_BAD_VALUE, room)
    else if error == STATUS_OK then Emit(room, parts[1..], error)
    else Emitted([], error, room)
  }

  lemma {:induction false} EmitConcat(room: Space, a: seq<Part>, b: seq<Part>, error: int)
    ensures var first := Emit(room, a, error);
            var then_ := Emit(first.room, b, error);
            Emit(room, a + b, error)
            == if first.status != STATUS_OK then first else then_.(bytes := first.bytes + then_.bytes)
    decreases |a|
  {
    if a == [] {
      assert a + b == b;
    } else {
      assert (a + b)[1..] == a[1..] + b;
      EmitConcat(if room.Takes(|a[0].bytes|) then room.After(|a[0].bytes|) else room, a[1..], b, error);
    }
  }

  function AllBytes(parts: seq<Part>): seq<Byte> {
    if parts == [] then [] else parts[0].bytes + AllBytes(parts[1..])
  }

  /** Every part has room after the ones before it. */
  predicate AllTaken(room: Space, parts: seq<Part>)
    decreases |parts|
  {
    parts == [] || (room.Takes(|parts[0].bytes|) && AllTaken(room.After(|parts[0].bytes|), parts[1..]))
  }

  /** Everything is appended if and only if every part has room after the ones before it. */
  lemma {:induction false} AllOrNot(room: Space, parts: seq<Part>, error: int)
    requires forall i :: 0 <= i < |parts| ==> |parts[i].bytes| > 0
    ensures |Emit(room, parts, error).bytes| <= |AllBytes(parts)|
    ensures |Emit(room, parts, error).bytes| == |AllBytes(parts)| <==> AllTaken(room, parts)
    ensures AllTaken(room, parts) ==>
              Emit(room, parts, error).bytes == AllBytes(parts) && Emit(room, parts, error).status == STATUS_OK
    decreases |parts|
  {
    if parts != [] {
      AllOrNot(if room.Takes(|parts[0].bytes|) then room.After(|parts[0].bytes|) else room, parts[1..], error);
    }
  }

  /** Enough room for all of it is room for each. */
  lemma {:induction false} RoomForAll(room: Space, parts: seq<Part>)
    requires room.pos == room.size && (room.size + |AllBytes(parts)|) * 3 / 2 <= INT32_MAX
    requires forall i :: 0 <= i < |parts| ==> |parts[i].bytes| > 0
    ensures AllTaken(room, parts)
    decreases |parts|
  {
    if parts != [] { RoomForAll(room.After(|parts[0].bytes|), parts[1..]); }
  }

  function IntParts(v: Int32): (r: seq<Part>)
  {
    [Part(Int32Bytes(v), false)]
  }

  function StrParts(s: seq<Byte>): (r: seq<Part>)
    requires |s| <= STRING_CAPACITY
  {
    [Part(Int32Bytes(|s|), false), Part(Padded(s + [0]), true)]
  }

  lemma StrPartsAre(s: seq<Byte>)
    requires |s| <= STRING_CAPACITY
    ensures AllBytes(StrParts(s)) == StrBytes(s)
  {
    hide Int32Bytes, Padded;
    var parts := StrParts(s);
    assert parts[1..] == [parts[1]] && parts[1..][1..] == [];
    assert AllBytes(parts[1..]) == parts[1].bytes + [];
  }

  lemma IntPartsEmit(room: Space, v: Int32, error: int)
    ensures Emit(room, IntParts(v), error)
         == if room.Takes(4) then Emitted(Int32Bytes(v), STATUS_OK, room.After(4))
            else Emitted([], STATUS_BAD_VALUE, room)
  {
    hide Int32Bytes, Space.Takes, Space.After;
    assert IntParts(v)[1..] == [] && Int32Bytes(v) + [] == Int32Bytes(v);
  }

  /** The three outcomes of writing a string's parts. */
  lemma StrPartsEmit(room: Space, s: seq<Byte>, error: int)
    requires |s| <= STRING_CAPACITY
    ensures var n := PadSize(|s| + 1);
            Emit(room, StrParts(s), error)
            == if !room.Takes(4) then Emitted([], STATUS_BAD_VALUE, room)
               else if !room.After(4).Takes(n) then Emitted(Int32Bytes(|s|), error, room.After(4))
               else Emitted(StrBytes(s), STATUS_OK, room.After(4).After(n))
  {
    hide Int32Bytes, Padded, Space.Takes, Space.After;
    var parts, after := StrParts(s), room.After(4);
    assert parts[1..] == [parts[1]] && parts[1..][1..] == [];
    assert parts[0].bytes + [] == parts[0].bytes && parts[1].bytes + [] == parts[1].bytes;
    assert Emit(after, parts[1..], error)
        == if after.Takes(|parts[1].bytes|)
           then Emitted(parts[1].bytes + [], STATUS_OK, after.After(|parts[1].bytes|))
           else Emitted([], error, after);
  }

  lemma RoomForWord(room: Space)
    requires room.pos == room.size && (room.size + 4) * 3 / 2 <= INT32_MAX
    ensures room.Takes(4)
  {
  }

  lemma RoomForString(room: Space, s: seq<Byte>)
    requires |s| <= STRING_CAPACITY && room.pos == room.size && (room.size + |StrBytes(s)|) * 3 / 2 <= INT32_MAX
    ensures room.Takes(4) && room.After(4).Takes(PadSize(|s| + 1))
  {
  }

  /** What writing the parts did to a parcel. */
  twostate predicate Emits(p: Buffer, e: Emitted)
    requires old(p.mDataSize <= p.Capacity()) && p.mDataSize <= p.Capacity()
    reads p, p.mData
  {
    Appended(p, e.bytes) && p.Room() == e.room
  }

  method AppendInt32(p: Buffer, val: Int32) returns (status: int)
    requires p.Bounded() && !p.mForeign && p.mDataPos == p.mDataSize
    modifies p, p.mData
    ensures p.Bounded() && (p.mData == old(p.mData) || fresh(p.mData))
    ensures var e := Emit(old(p.Room()), IntParts(val), old(p.mError)); Emits(p, e) && status == e.status
    ensures old(HasRoom(p, 4)) ==> status == STATUS_OK && Appended(p, Int32Bytes(val))
    ensures old(p.Orderly()) ==> p.Orderly()
  {
    hide EntryRefs, TableRefs, Int32Bytes, Buffer.Orderly, Buffer.Spares, Emit, IntParts, Space.After, Buffer.Contents;
    if p.Orderly() { AppendSpares(p, 4); }
    if HasRoom(p, 4) { RoomForWord(p.Room()); }
    IntPartsEmit(p.Room(), val, p.mError);
    ghost var c := p.Contents();
    status := WriteInt32(p, val);
    assert p.Contents() == c + [] || p.Contents() == c + Int32Bytes(val);
  }

  method AppendString(p: Buffer, s: seq<Byte>) returns (status: int)
    requires p.Bounded() && !p.mForeign && p.mDataPos == p.mDataSize && |s| <= STRING_CAPACITY
    modifies p, p.mData
    ensures p.Bounded() && (p.mData == old(p.mData) || fresh(p.mData))
    ensures var e := Emit(old(p.Room()), StrParts(s), old(p.mError)); Emits(p, e) && status == e.status
    ensures old(HasRoom(p, |StrBytes(s)|)) ==> status == STATUS_OK && Appended(p, StrBytes(s))
    ensures old(p.Orderly()) ==> p.Orderly()
  {
    hide EntryRefs, TableRefs, StrBytes, Int32Bytes, Buffer.Orderly, Emit, StrParts, Space.After;
    StrPartsEmit(p.Room(), s, p.mError);
    if HasRoom(p, |StrBytes(s)|) { RoomForString(p.Room(), s); }
    ghost var c := p.Contents();
    status := WriteString16(p, s);
    assert p.Contents() == c + [] || p.Contents() == c + Int32Bytes(|s|) || p.Contents() == c + StrBytes(s);
  }

  method AppendPointer(p: Buffer, v: nat) returns (status: int)
    requires p.Bounded() && !p.mForeign && p.mDataPos == p.mDataSize && HasRoom(p, 8)
    modifies p, p.mData
    ensures p.Bounded() && (p.mData == old(p.mData) || fresh(p.mData))
    ensures Appended(p, Word(v, 8)) && status == STATUS_OK
    ensures old(p.Orderly()) ==> p.Orderly()
  {
    hide EntryRefs, TableRefs, Word, Buffer.Orderly, Buffer.Spares, Buffer.SameData;
    if p.Orderly() { AppendSpares(p, 8); }
    status := p.WriteAligned(Word(v, 8));
  }

  method AppendRaw(p: Buffer, bytes: seq<Byte>) returns (status: int)
    requires p.Bounded() && !p.mForeign && p.mDataPos == p.mDataSize
    requires |bytes| <= INT32_MAX && HasRoom(p, PadSize(|bytes|))
    modifies p, p.mData
    ensures p.Bounded() && (p.mData == old(p.mData) || fresh(p.mData))
    ensures Appended(p, Padded(bytes))
    ensures status == if bytes == [] && old(p.mData) == null then p.mError else STATUS_OK
    ensures old(p.Orderly()) ==> p.Orderly()
  {
    hide EntryRefs, TableRefs, Padded, Buffer.Orderly, Buffer.Spares;
    if bytes == [] { EmptyPad(); }
    if p.Orderly() { AppendSpares(p, PadSize(|bytes|)); }
    status := p.Write(bytes);
  }

  /** One typed write at the end of a parcel that owns its data and records no error. */
  method WriteItem(p: Buffer, item: Item) returns (status: int)
    requires p.Bounded() && !p.mForeign && item.Valid() && p.mDataPos == p.mDataSize && HasRoom(p, |Encode(item)|)
    modifies p, p.mData
    ensures p.Bounded() && (p.mData == old(p.mData) || fresh(p.mData))
    ensures Appended(p, Encode(item))
    ensures status == if item == Raw([]) && old(p.mData) == null then p.mError else STATUS_OK
    ensures old(p.Orderly()) ==> p.Orderly()
  {
    hide EntryRefs, TableRefs, Padded, Int32Bytes, Word, StrBytes, Buffer.Orderly, Appended;
    match item {
      case I32(i) => status := AppendInt32(p, i);
      case Flag(b) => status := AppendInt32(p, if b then 1 else 0);
      case Pointer(v) => status := AppendPointer(p, v);
      case Raw(bytes) => status := AppendRaw(p, bytes);
      case Str(s) => status := AppendString(p, s);
    }
  }

  lemma EmptyPad()
    ensures Padded([]) == []
  {
  }

  /** A run of typed writes appends the items' bytes; every growth on the way keeps the earlier ones. */
  method WriteAll(p: Buffer, items: seq<Item>) returns (status: int)
    requires p.Bounded() && !p.mForeign && p.mDataPos == p.mDataSize && p.mError == STATUS_OK
    requires forall i :: 0 <= i < |items| ==> items[i].Valid()
    requires HasRoom(p, |EncodeAll(items)|)
    modifies p, p.mData
    ensures p.Bounded() && status == STATUS_OK && Appended(p, EncodeAll(items))
    ensures old(p.Orderly()) ==> p.Orderly()
  {
    hide EntryRefs, ObjectAt, TableRefs, Ordered, Encode, EncodeAll, Item.Valid, Buffer.Contents, Buffer.Orderly;
    ghost var c := p.Contents();
    status := STATUS_OK;
    EncodeNothing();
    assert items[..0] == [] && c + [] == c;
    for i := 0 to |items|
      invariant p.Bounded() && p.SameTable() && !p.mForeign && status == STATUS_OK
      invariant p.mData == old(p.mData) || fresh(p.mData)
      invariant p.Contents() == c + EncodeAll(items[..i]) && p.mDataPos == p.mDataSize
      invariant old(p.Orderly()) ==> p.Orderly()
    {
      EncodePrefix(items, i);
      status := WriteItem(p, items[i]);
      assert (c + EncodeAll(items[..i])) + Encode(items[i]) == c + (EncodeAll(items[..i]) + Encode(items[i]));
    }
    assert items[..|items|] == items;
  }

  lemma {:induction false} EncodePrefix(items: seq<Item>, i: nat)
    requires i < |items| && forall k :: 0 <= k < |items| ==> items[k].Valid()
    ensures EncodeAll(items[..i + 1]) == EncodeAll(items[..i]) + Encode(items[i])
    ensures EncodeAll(items[..i + 1]) <= EncodeAll(items)
    decreases |items|
  {
    hide Encode;
    assert items[..i + 1][..i] == items[..i];
    if i + 1 == |items| {
      assert items[..i + 1] == items;
    } else {
      var front := items[..|items| - 1];
      EncodePrefix(front, i);
      assert front[..i + 1] == items[..i + 1];
    }
  }

  // ---------------------------------------------------------------- reading

  /** Parcel_readInt32; `value` stays as it was when there is too little data. */
  method ReadInt32(p: Buffer, before: Int32) returns (status: int, value: Int32)
    requires p.Bounded()
    modifies p`mDataPos
    ensures p.Bounded()
    ensures match Int32At(p.Contents(), old(p.mDataPos))
            case Got(v, end) => status == STATUS_OK && value == v && p.mDataPos == end
            case Failed(st, end) => status == st && value == before && p.mDataPos == end
  {
    var bs;
    status, bs := p.ReadAligned(4);
    value := if status == STATUS_OK then Int32Of(bs) else before;
  }

  /** readString8Inplace and Parcel_readString16_to. The length variable starts with whatever `garbage` was on the
      stack; a parcel too short to give a length is refused whatever that was. */
  method ReadString16(p: Buffer, garbage: Int32) returns (r: Outcome<seq<Byte>>)
    requires p.Bounded()
    modifies p`mDataPos
    ensures p.Bounded() && r == StrAt(p.Contents(), old(p.mDataPos))
    ensures r.Aborted? || p.mDataPos == r.end
  {
    hide Int32Of, CString, Buffer.Contents;
    ghost var c, pos := p.Contents(), p.mDataPos;
    var status, size := ReadInt32(p, garbage);
    assert status != STATUS_OK ==> p.mDataPos == pos && pos + 4 > |c| && PadSize(|c| + 1) >= 4;
    if 0 <= size < INT32_MAX {
      var found, str := p.ReadInplace(size + 1);
      if found {
        assert str[size] == c[p.mDataPos - PadSize(size + 1) + size];
        if str[size] != 0 {
          return Aborted;
        }
        assert str[..size] == c[pos + 4..pos + 4 + size];
        return Got(CString(str[..size]), p.mDataPos);
      }
    }
    r := Failed(STATUS_BAD_VALUE, p.mDataPos);
  }

  /** One typed read. */
  method ReadItem(p: Buffer, kind: Kind, garbage: Int32) returns (r: Outcome<Item>)
    requires p.Bounded()
    modifies p`mDataPos
    ensures p.Bounded() && r == Decode(kind, p.Contents(), old(p.mDataPos))
    ensures r.Aborted? || p.mDataPos == r.end
  {
    hide Int32Of, Value;
    match kind {
      case KI32 =>
        var status, v := ReadInt32(p, garbage);
        r := if status == STATUS_OK then Got(I32(v), p.mDataPos) else Failed(status, p.mDataPos);
      case KFlag =>
        var status, v := ReadInt32(p, 0);
        r := if status == STATUS_OK then Got(Flag(v != 0), p.mDataPos) else Failed(status, p.mDataPos);
      case KPointer =>
        var status, bs := p.ReadAligned(8);
        r := Got(Pointer(if status == STATUS_OK then Value(bs) else 0), p.mDataPos);
      case KRaw(len) =>
        var status, bs := p.Read(len);
        r := if status == STATUS_OK then Got(Raw(bs), p.mDataPos) else Failed(status, p.mDataPos);
      case KStr =>
        var str := ReadString16(p, garbage);
        r := match str
          case Got(s, end) => Got(Str(s), end)
          case Failed(st, end) => Failed(st, end)
          case Aborted => Aborted;
    }
  }

  lemma EncodeNothing()
    ensures EncodeAll([]) == []
  {
  }

  lemma DecodeNext(items: seq<Item>, i: nat)
    requires i < |items| && forall k :: 0 <= k < |items| ==> items[k].Valid()
    ensures |EncodeAll(items[..i])| <= |EncodeAll(items)|
    ensures Decode(items[i].Kind(), EncodeAll(items), |EncodeAll(items[..i])|)
         == Got(items[i], |EncodeAll(items[..i + 1])|)
  {
    hide Encode, EncodeAll, Decode, Item.Kind, Item.Valid;
    EncodePrefix(items, i);
    var c, at, bs := EncodeAll(items), |EncodeAll(items[..i])|, Encode(items[i]);
    assert c[..at + |bs|] == EncodeAll(items[..i + 1]);
    assert c[at..at + |bs|] == c[..at + |bs|][at..] == bs;
    DecodeEncode(items[i], c, at);
  }

  /** The matching reads of a parcel that holds exactly the items' bytes. */
  method ReadAll(p: Buffer, ghost items: seq<Item>, kinds: seq<Kind>, garbage: Int32) returns (got: seq<Item>)
    requires p.Bounded() && p.mDataPos == 0
    requires |kinds| == |items| && forall i :: 0 <= i < |items| ==> items[i].Valid() && kinds[i] == items[i].Kind()
    requires p.Contents() == EncodeAll(items)
    modifies p`mDataPos
    ensures p.Bounded() && got == items && p.mDataPos == p.mDataSize
  {
    hide Encode, EncodeAll, Decode, Item.Kind, Item.Valid;
    assert EncodeAll(items[..0]) == [] by { EncodeNothing(); }
    got := [];
    for i := 0 to |kinds|
      invariant p.Bounded() && got == items[..i] && p.mDataPos == |EncodeAll(items[..i])|
    {
      DecodeNext(items, i);
      var r := ReadItem(p, kinds[i], garbage);
      got := got + [r.value];
    }
    assert items[..|items|] == items;
  }

  function Kinds(items: seq<Item>): seq<Kind> { seq(|items|, i requires 0 <= i < |items| => items[i].Kind()) }

  /** Typed writes, a rewind and the matching reads: the same values, ending exactly at the data size. */
  method RoundTrip(items: seq<Item>, garbage: Int32) returns (got: seq<Item>, left: int)
    requires forall i :: 0 <= i < |items| ==> items[i].Valid()
    requires |EncodeAll(items)| * 3 / 2 <= INT32_MAX
    ensures got == items && left == 0
  {
    hide EncodeAll, Item.Kind;
    var p := new Buffer(0);
    var status := WriteAll(p, items);
    p.SetDataPosition(0);
    got := ReadAll(p, items, Kinds(items), garbage);
    left := p.mDataSize - p.mDataPos;
  }
}
