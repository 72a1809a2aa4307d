/** How an exception travels in a parcel (Status.c). */
module Status {
  import opened Sums
  import opened ParcelCodec
  import opened Parcel
  import opened ParcelItems

  const EX_NONE: Int32 := 0
  const EX_SERVICE_SPECIFIC: Int32 := -8
  const EX_PARCELABLE: Int32 := -9
  const EX_HAS_REPLY_HEADER: Int32 := -128
  const EX_TRANSACTION_FAILED: Int32 := -129
  const STATUS_UNKNOWN_ERROR: Int32 := -0x8000_0000

  datatype Record = Record(exception: Int32, errorCode: Int32, message: seq<Byte>)

  /** What a read leaves: a status code, the fields and the cursor; the abort on an unterminated message; or a
      message longer than the array of the String that receives it, which is then overrun. */
  datatype Parsed = Returned(status: int, record: Record, end: nat) | Unterminated | TooLong

  // ---------------------------------------------------------------- the wire format

  /** What Status_writeToParcel appends. */
  function StatusBytes(r: Record): seq<Byte>
    requires |r.message| <= STRING_CAPACITY
  {
    Int32Bytes(r.exception) + (if r.exception == EX_NONE then [] else StrBytes(r.message) + Int32Bytes(0) + Extra(r))
  }

  function Extra(r: Record): seq<Byte> {
    if r.exception == EX_SERVICE_SPECIFIC then Int32Bytes(r.errorCode)
    else if r.exception == EX_PARCELABLE then Int32Bytes(0)
    else []
  }

  /** Status_setFromStatusT for a failure. */
  function Fail(status: Int32, end: nat): Parsed
    requires status != STATUS_OK
  {
    Returned(status, Record(EX_TRANSACTION_FAILED, status, []), end)
  }

  /** A block that starts with its own length, which counts the length word: its length, and the cursor after it. */
  function Block(c: seq<Byte>, start: nat): Outcome<Int32>
    requires start <= |c|
  {
    match Int32At(c, start)
    case Failed(st, end) => Failed(st, end)
    case Got(size, end) =>
      if size < 0 || size > |c| - start then Failed(STATUS_UNKNOWN_ERROR, end) else Got(size, end)
  }

  /** What String_init and String_dup make of a message that fills the array: the last byte is not copied, and what
      was on the stack counts as part of the message. */
  function Received(msg: seq<Byte>, stray: Byte): (m: seq<Byte>)
    requires |msg| <= STRING_CAPACITY
    ensures |m| == |msg|
  {
    if |msg| < STRING_CAPACITY then msg else msg[..STRING_CAPACITY - 1] + [stray]
  }

  /** What Status_readFromParcel makes of the bytes at `pos`; `stray` is the last byte of an array on its stack. */
  function Parse(c: seq<Byte>, pos: nat, before: Record, stray: Byte): Parsed
    requires pos <= |c|
  {
    match Int32At(c, pos)
    case Failed(st, end) => Fail(STATUS_NOT_ENOUGH_DATA, end)
    case Got(e, at) =>
      if e == EX_HAS_REPLY_HEADER then
        (match Block(c, at)
         case Failed(st, end) => FailAt(st, end)
         case Got(size, _) => Returned(STATUS_OK, before.(exception := EX_NONE), at + size))
      else if e == EX_NONE then Returned(STATUS_OK, before.(exception := EX_NONE), at)
      else ParseMessage(c, at, before.(exception := e), stray)
  }

  function FailAt(st: int, end: nat): Parsed {
    Fail(if st == STATUS_UNKNOWN_ERROR then STATUS_UNKNOWN_ERROR else STATUS_NOT_ENOUGH_DATA, end)
  }

  function ParseMessage(c: seq<Byte>, pos: nat, r: Record, stray: Byte): Parsed
    requires pos <= |c|
  {
    match StrAt(c, pos)
    case Failed(_, end) => Fail(STATUS_BAD_VALUE, end)
    case Aborted => Unterminated
    case Got(msg, at) =>
      if |msg| > STRING_CAPACITY then TooLong
      else
        match Block(c, at)
        case Failed(st, end) => FailAt(st, end)
        case Got(size, end) => ParseExtra(c, if size == 0 then end else at + size, r.(message := Received(msg, stray)))
  }

  function ParseExtra(c: seq<Byte>, pos: nat, r: Record): (parsed: Parsed)
    requires pos <= |c|
    ensures parsed.Returned?
  {
    if r.exception == EX_SERVICE_SPECIFIC then
      (match Int32At(c, pos)
       case Failed(st, end) => Fail(STATUS_NOT_ENOUGH_DATA, end)
       case Got(code, end) => Returned(STATUS_OK, r.(errorCode := code), end))
    else if r.exception == EX_PARCELABLE then
      (match Block(c, pos)
       case Failed(st, end) => FailAt(st, end)
       case Got(size, _) => Returned(STATUS_OK, r, pos + size))
    else Returned(STATUS_OK, r, pos)
  }

  // ---------------------------------------------------------------- properties

  /** A read that returns leaves the cursor within the data, and records a failure as a failed transaction that
      carries the same code. Which bytes make it abort or overrun instead is said below. */
  lemma ParseIsSafe(c: seq<Byte>, pos: nat, before: Record, stray: Byte)
    requires pos <= |c|
    ensures var r := Parse(c, pos, before, stray);
            r.Returned? ==>
              && r.end <= |c|
              && (r.status != STATUS_OK ==> r.record == Record(EX_TRANSACTION_FAILED, r.status, []))
  {
    hide Int32Of, CString, Received;
  }

  /** The bytes at `pos` hold an exception, the length `n` of a message, and all of the message with its padding. */
  predicate HasMessage(c: seq<Byte>, pos: nat, n: Int32) {
    && pos + 8 <= |c|
    && Int32Of(c[pos..pos + 4]) != EX_NONE && Int32Of(c[pos..pos + 4]) != EX_HAS_REPLY_HEADER
    && Int32Of(c[pos + 4..pos + 8]) == n && 0 <= n < INT32_MAX && pos + 8 + PadSize(n + 1) <= |c|
  }

  /** A read aborts exactly on a message whose terminator is missing. */
  lemma WhenUnterminated(c: seq<Byte>, pos: nat, before: Record, stray: Byte)
    requires pos <= |c|
    ensures Parse(c, pos, before, stray) == Unterminated
       <==> exists n: Int32 :: HasMessage(c, pos, n) && c[pos + 8 + n] != 0
  {
    hide Int32Of, CString, StrAt, Received, Block, ParseExtra;
    if pos + 8 <= |c| { MessageFound(c, pos, Int32Of(c[pos + 4..pos + 8])); } else { NoLength(c, pos + 4); }
  }

  /** A read overruns the String exactly on a terminated message whose first 65 bytes are characters. */
  lemma WhenTooLong(c: seq<Byte>, pos: nat, before: Record, stray: Byte)
    requires pos <= |c|
    ensures Parse(c, pos, before, stray) == TooLong
       <==> exists n: Int32 :: HasMessage(c, pos, n) && c[pos + 8 + n] == 0
              && STRING_CAPACITY < n && 0 !in c[pos + 8..pos + 8 + STRING_CAPACITY + 1]
  {
    hide Int32Of, CString, StrAt, Received, Block, ParseExtra;
    if pos + 8 <= |c| {
      var n := Int32Of(c[pos + 4..pos + 8]);
      MessageFound(c, pos, n);
      if HasMessage(c, pos, n) {
        LongText(c[pos + 8..pos + 8 + n]);
        if STRING_CAPACITY < n { FirstBytes(c, pos + 8, n, STRING_CAPACITY + 1); }
      }
    } else {
      NoLength(c, pos + 4);
    }
  }

  lemma NoLength(c: seq<Byte>, pos: nat)
    requires pos + 4 > |c|
    ensures StrAt(c, pos).Failed?
  {
  }

  lemma FirstBytes(c: seq<Byte>, at: nat, n: nat, k: nat)
    requires k <= n && at + n <= |c|
    ensures c[at..at + n][..k] == c[at..at + k]
  {
  }

  /** The length word read by the parser. */
  lemma MessageFound(c: seq<Byte>, pos: nat, n: Int32)
    requires pos + 8 <= |c| && n == Int32Of(c[pos + 4..pos + 8])
    ensures HasMessage(c, pos, n) ==>
              StrAt(c, pos + 4) == if c[pos + 8 + n] != 0 then Aborted
                                   else Got(CString(c[pos + 8..pos + 8 + n]), pos + 8 + PadSize(n + 1))
    ensures (0 <= n < INT32_MAX && pos + 8 + PadSize(n + 1) <= |c|) || StrAt(c, pos + 4).Failed?
  {
    hide Int32Of, CString;
  }

  lemma LongText(text: seq<Byte>)
    ensures |CString(text)| > STRING_CAPACITY
       <==> |text| > STRING_CAPACITY && 0 !in text[..STRING_CAPACITY + 1]
  {
    var s := CString(text);
    if |s| > STRING_CAPACITY {
      forall i | 0 <= i < STRING_CAPACITY + 1 ensures text[i] != 0 { assert text[i] == s[i]; }
    } else if |text| > STRING_CAPACITY {
      assert text[|s|] == text[..STRING_CAPACITY + 1][|s|] == 0;
    }
  }

  /** Any text of more than 64 characters, written as an exception's message, overruns the reader. */
  lemma LongMessage(text: seq<Byte>, before: Record, stray: Byte)
    requires STRING_CAPACITY < |text| < INT32_MAX && 0 !in text
    ensures Parse(Int32Bytes(-1) + Int32Bytes(|text|) + Padded(text + [0]), 0, before, stray) == TooLong
  {
    hide Int32Bytes, Int32Of, Parse;
    var c := Int32Bytes(-1) + Int32Bytes(|text|) + Padded(text + [0]);
    Int32RoundTrip(-1);
    Int32RoundTrip(|text|);
    assert c[0..4] == Int32Bytes(-1) && c[4..8] == Int32Bytes(|text|);
    assert HasMessage(c, 0, |text|) && c[8..8 + STRING_CAPACITY + 1] == text[..STRING_CAPACITY + 1];
    assert c[8 + |text|] == 0;
    WhenTooLong(c, 0, before, stray);
  }

  /** An empty message without its terminator makes the reader abort. */
  lemma NoTerminator(before: Record, stray: Byte)
    ensures Parse(Int32Bytes(-1) + Int32Bytes(0) + [1, 0, 0, 0], 0, before, stray) == Unterminated
  {
    hide Int32Bytes, Int32Of, Parse;
    var c := Int32Bytes(-1) + Int32Bytes(0) + [1, 0, 0, 0];
    Int32RoundTrip(-1);
    Int32RoundTrip(0);
    assert c[0..4] == Int32Bytes(-1) && c[4..8] == Int32Bytes(0);
    assert HasMessage(c, 0, 0) && c[8] == 1;
    WhenUnterminated(c, 0, before, stray);
  }

  /** No block at `at`: its length word is missing, or is not one of bytes that are there. */
  predicate BlockMissing(c: seq<Byte>, at: nat) {
    at + 4 > |c| || !(0 <= Int32Of(c[at..at + 4]) <= |c| - at)
  }

  /** How a read fails that finds none. */
  function Missing(c: seq<Byte>, at: nat): Parsed {
    if at + 4 > |c| then Fail(STATUS_NOT_ENOUGH_DATA, at) else Fail(STATUS_UNKNOWN_ERROR, at + 4)
  }

  /** Where a block ends, which holds its own length. */
  function BlockEnd(c: seq<Byte>, at: nat): (end: nat)
    requires !BlockMissing(c, at)
    ensures at <= end <= |c|
  {
    at + Int32Of(c[at..at + 4])
  }

  /** The message at `pos` is there, with its terminator, and fits the String. */
  predicate HasText(c: seq<Byte>, pos: nat, n: Int32) {
    HasMessage(c, pos, n) && c[pos + 8 + n] == 0 && |CString(c[pos + 8..pos + 8 + n])| <= STRING_CAPACITY
  }

  /** A reply header is skipped to its end and means no exception. */
  lemma HeaderIsSkipped(c: seq<Byte>, pos: nat, before: Record, stray: Byte)
    requires pos + 4 <= |c| && Int32Of(c[pos..pos + 4]) == EX_HAS_REPLY_HEADER
    ensures Parse(c, pos, before, stray)
         == if BlockMissing(c, pos + 4) then Missing(c, pos + 4)
            else Returned(STATUS_OK, before.(exception := EX_NONE), BlockEnd(c, pos + 4))
  {
    hide Int32Of;
  }

  /** The stack trace after a message is skipped to its end, or by its length word when that is zero; then comes the
      code of a service-specific exception, or the blob of a parcelable one, skipped likewise. Each may be missing. */
  lemma TraceIsSkipped(c: seq<Byte>, pos: nat, before: Record, stray: Byte, n: Int32)
    requires HasText(c, pos, n)
    ensures var r, e := Parse(c, pos, before, stray), Int32Of(c[pos..pos + 4]);
            var message := Received(CString(c[pos + 8..pos + 8 + n]), stray);
            var trace := pos + 8 + PadSize(n + 1);
            if BlockMissing(c, trace) then r == Missing(c, trace)
            else
              var end := if BlockEnd(c, trace) == trace then trace + 4 else BlockEnd(c, trace);
              if e == EX_SERVICE_SPECIFIC then
                r == if end + 4 <= |c| then Returned(STATUS_OK, Record(e, Int32Of(c[end..end + 4]), message), end + 4)
                     else Fail(STATUS_NOT_ENOUGH_DATA, end)
              else if e == EX_PARCELABLE then
                r == if BlockMissing(c, end) then Missing(c, end)
                     else Returned(STATUS_OK, Record(e, before.errorCode, message), BlockEnd(c, end))
              else
                r == Returned(STATUS_OK, Record(e, before.errorCode, message), end)
  {
    hide Int32Of, CString, Received, StrAt, PadSize;
    MessageFound(c, pos, n);
  }

  /** No bytes `n` make a message at `pos`. */
  predicate MessageMissing(c: seq<Byte>, pos: nat) {
    pos + 8 > |c|
    || var n := Int32Of(c[pos + 4..pos + 8]); !(0 <= n < INT32_MAX && pos + 8 + PadSize(n + 1) <= |c|)
  }

  /** The other ends: too little data, no exception, or an exception without a message. */
  lemma NothingToRead(c: seq<Byte>, pos: nat, before: Record, stray: Byte)
    requires pos <= |c|
    ensures pos + 4 > |c| ==> Parse(c, pos, before, stray) == Fail(STATUS_NOT_ENOUGH_DATA, pos)
    ensures pos + 4 <= |c| ==>
              var r, e := Parse(c, pos, before, stray), Int32Of(c[pos..pos + 4]);
              && (e == EX_NONE ==> r == Returned(STATUS_OK, before.(exception := EX_NONE), pos + 4))
              && (e != EX_NONE && e != EX_HAS_REPLY_HEADER && MessageMissing(c, pos) ==>
                    r == Fail(STATUS_BAD_VALUE, if pos + 8 > |c| then pos + 4 else pos + 8))
  {
    hide Int32Of, CString;
  }

  /** A service-specific exception from a writer that sends a stack trace: whatever that holds, the code after it comes
      back and the read ends where the bytes end. */
  lemma TraceRoundTrip(text: seq<Byte>, trace: seq<Byte>, code: Int32, before: Record, stray: Byte)
    requires |text| <= STRING_CAPACITY && 0 !in text && |trace| < INT32_MAX - 4
    ensures var c := Int32Bytes(EX_SERVICE_SPECIFIC) + StrBytes(text) + (Int32Bytes(4 + |trace|) + trace)
                     + Int32Bytes(code);
            Parse(c, 0, before, stray)
            == Returned(STATUS_OK, Record(EX_SERVICE_SPECIFIC, code, Received(text, stray)), |c|)
  {
    hide Int32Bytes, Int32Of, Parse, CString, Received, StrBytes;
    var n: Int32, block := |text|, Int32Bytes(4 + |trace|) + trace;
    var c := Int32Bytes(EX_SERVICE_SPECIFIC) + StrBytes(text) + block + Int32Bytes(code);
    Int32RoundTrip(EX_SERVICE_SPECIFIC);
    Int32RoundTrip(n);
    Int32RoundTrip(4 + |trace|);
    Int32RoundTrip(code);
    var at := 8 + PadSize(n + 1);
    TracePieces(text, trace, code);
    CStringOfText(text);
    assert HasText(c, 0, n);
    var end := at + 4 + |trace|;
    assert !BlockMissing(c, at) && BlockEnd(c, at) == end && c[end..end + 4] == Int32Bytes(code) && end + 4 == |c|;
    TraceIsSkipped(c, 0, before, stray, n);
  }

  lemma TracePieces(text: seq<Byte>, trace: seq<Byte>, code: Int32)
    requires |text| <= STRING_CAPACITY && |trace| < INT32_MAX - 4
    ensures var c := Int32Bytes(EX_SERVICE_SPECIFIC) + StrBytes(text) + (Int32Bytes(4 + |trace|) + trace)
                     + Int32Bytes(code);
            var at := 8 + PadSize(|text| + 1);
            && |c| == at + 4 + |trace| + 4 && c[0..4] == Int32Bytes(EX_SERVICE_SPECIFIC)
            && c[4..8] == Int32Bytes(|text|) && c[8..8 + |text|] == text && c[8 + |text|] == 0
            && c[at..at + 4] == Int32Bytes(4 + |trace|)
            && c[at + 4 + |trace|..at + 4 + |trace| + 4] == Int32Bytes(code)
  {
    hide Int32Bytes, Padded, PadSize;
    var head, size, last := Int32Bytes(EX_SERVICE_SPECIFIC), Int32Bytes(4 + |trace|), Int32Bytes(code);
    var message := StrBytes(text);
    var c := head + message + (size + trace) + last;
    assert c[..4] == head && c[4..4 + |message|] == message;
    MessagePieces(text);
    assert message == c[4..4 + |message|];
    assert c[4..8] == message[..4] && c[8..8 + |text|] == message[4..4 + |text|];
    assert c[8 + |text|] == message[4 + |text|];
    assert c[4 + |message|..8 + |message|] == size && c[8 + |message| + |trace|..] == last;
  }

  lemma MessagePieces(text: seq<Byte>)
    requires |text| <= STRING_CAPACITY
    ensures var bs := StrBytes(text);
            && |bs| == 4 + PadSize(|text| + 1) && bs[..4] == Int32Bytes(|text|)
            && bs[4..4 + |text|] == text && bs[4 + |text|] == 0
  {
    hide Int32Bytes;
  }

  lemma CStringOfText(text: seq<Byte>)
    requires 0 !in text
    ensures CString(text) == text
  {
  }

  /** What comes back when the status `r` was written at `pos`: the exception unless it announces a reply header, the
      message unless there is no exception, and the code of a service-specific one. */
  lemma {:induction false} ParseRoundTrip(c: seq<Byte>, pos: nat, r: Record, before: Record, stray: Byte)
    requires r.exception != EX_TRANSACTION_FAILED && |r.message| <= STRING_CAPACITY && 0 !in r.message
    requires pos + |StatusBytes(r)| <= |c| && c[pos..pos + |StatusBytes(r)|] == StatusBytes(r)
    ensures var got := Parse(c, pos, before, stray);
            && got.Returned? && got.status == STATUS_OK
            && (got.record.exception == r.exception <==> r.exception != EX_HAS_REPLY_HEADER)
            && (r.exception != EX_HAS_REPLY_HEADER ==>
                  && got.record.message
                     == (if r.exception == EX_NONE then before.message else Received(r.message, stray))
                  && got.record.errorCode
                     == (if r.exception == EX_SERVICE_SPECIFIC then r.errorCode else before.errorCode)
                  && got.end == pos + |StatusBytes(r)| - (if r.exception == EX_PARCELABLE then 4 else 0))
  {
    hide Int32Bytes, Int32Of, StrBytes, ParseMessage, Extra;
    var bs := StatusBytes(r);
    Int32RoundTrip(r.exception);
    assert bs[..4] == Int32Bytes(r.exception);
    SliceOf(c, pos, bs, 0, 4);
    if r.exception == EX_HAS_REPLY_HEADER {
      HeaderReadsLength(c, pos + 4, r);
    } else if r.exception != EX_NONE {
      SliceOf(c, pos, bs, 4, |bs|);
      assert bs[4..] == StrBytes(r.message) + Int32Bytes(0) + Extra(r);
      MessageRoundTrip(c, pos + 4, r, before.(exception := r.exception), stray);
    }
  }

  lemma SliceOf(c: seq<Byte>, pos: nat, bs: seq<Byte>, i: nat, j: nat)
    requires pos + |bs| <= |c| && c[pos..pos + |bs|] == bs && i <= j <= |bs|
    ensures c[pos + i..pos + j] == bs[i..j]
  {
    forall k | i <= k < j ensures c[pos + k] == bs[k] {
      assert c[pos..pos + |bs|][k] == c[pos + k];
    }
  }

  lemma MessageRoundTrip(c: seq<Byte>, pos: nat, r: Record, before: Record, stray: Byte)
    requires before.exception == r.exception && |r.message| <= STRING_CAPACITY && 0 !in r.message
    requires pos + |StrBytes(r.message)| + 4 + |Extra(r)| <= |c|
    requires c[pos..pos + |StrBytes(r.message)| + 4 + |Extra(r)|] == StrBytes(r.message) + Int32Bytes(0) + Extra(r)
    ensures ParseMessage(c, pos, before, stray)
         == Returned(STATUS_OK,
                     Record(r.exception,
                            if r.exception == EX_SERVICE_SPECIFIC then r.errorCode else before.errorCode,
                            Received(r.message, stray)),
                     pos + |StrBytes(r.message)| + 4 + |Extra(r)| - (if r.exception == EX_PARCELABLE then 4 else 0))
  {
    hide Int32Bytes, Int32Of, StrBytes, StrAt, Extra, ParseExtra;
    var bs, n := StrBytes(r.message) + Int32Bytes(0) + Extra(r), |StrBytes(r.message)|;
    SliceOf(c, pos, bs, 0, n);
    assert bs[..n] == StrBytes(r.message);
    StrRoundTrip(r.message, c, pos);
    SliceOf(c, pos, bs, n, n + 4);
    assert bs[n..n + 4] == Int32Bytes(0);
    Int32RoundTrip(0);
    SliceOf(c, pos, bs, n + 4, |bs|);
    assert bs[n + 4..] == Extra(r);
    ExtraRoundTrip(c, pos + n + 4, r, before.(message := Received(r.message, stray)));
  }

  lemma ExtraRoundTrip(c: seq<Byte>, pos: nat, r: Record, before: Record)
    requires before.exception == r.exception && pos + |Extra(r)| <= |c| && c[pos..pos + |Extra(r)|] == Extra(r)
    ensures ParseExtra(c, pos, before)
         == Returned(STATUS_OK,
                     before.(errorCode :=
                               if r.exception == EX_SERVICE_SPECIFIC then r.errorCode else before.errorCode),
                     pos + |Extra(r)| - (if r.exception == EX_PARCELABLE then 4 else 0))
  {
    hide Int32Bytes, Int32Of;
    Int32RoundTrip(0);
    Int32RoundTrip(r.errorCode);
  }

  /** A written reply-header exception is read as a header whose size is the message's length. */
  lemma HeaderReadsLength(c: seq<Byte>, at: nat, r: Record)
    requires 4 <= at && |r.message| <= STRING_CAPACITY && r.exception == EX_HAS_REPLY_HEADER
    requires at - 4 + |StatusBytes(r)| <= |c| && c[at - 4..at - 4 + |StatusBytes(r)|] == StatusBytes(r)
    ensures Block(c, at) == Got(|r.message|, at + 4)
  {
    hide Int32Bytes, Int32Of, Extra;
    Int32RoundTrip(|r.message|);
    var bs := StatusBytes(r);
    assert bs[4..8] == StrBytes(r.message)[..4] == Int32Bytes(|r.message|);
    SliceOf(c, at - 4, bs, 4, 8);
  }

  // ---------------------------------------------------------------- what fits

  function ExtraParts(r: Record): seq<Part> {
    if r.exception == EX_SERVICE_SPECIFIC then IntParts(r.errorCode)
    else if r.exception == EX_PARCELABLE then IntParts(0)
    else []
  }

  function BodyParts(r: Record): seq<Part>
    requires |r.message| <= STRING_CAPACITY
  {
    if r.exception == EX_NONE then [] else StrParts(r.message) + (IntParts(0) + ExtraParts(r))
  }

  /** The pieces that Status_writeToParcel writes one after the other. */
  function StatusParts(r: Record): seq<Part>
    requires |r.message| <= STRING_CAPACITY
  {
    IntParts(r.exception) + BodyParts(r)
  }

  lemma EmitNothing(room: Space, error: int)
    ensures Emit(room, [], error) == Emitted([], STATUS_OK, room)
  {
  }

  lemma {:induction false} BytesConcat(a: seq<Part>, b: seq<Part>)
    ensures AllBytes(a + b) == AllBytes(a) + AllBytes(b)
    decreases |a|
  {
    if a == [] {
      assert a + b == b;
    } else {
      assert (a + b)[1..] == a[1..] + b;
      BytesConcat(a[1..], b);
    }
  }

  lemma IntPartsAre(v: Int32)
    ensures AllBytes(IntParts(v)) == Int32Bytes(v)
  {
    hide Int32Bytes;
    assert IntParts(v)[1..] == [] && Int32Bytes(v) + [] == Int32Bytes(v);
  }

  /** The pieces are the wire format. */
  lemma StatusPartsAre(r: Record)
    requires |r.message| <= STRING_CAPACITY
    ensures AllBytes(StatusParts(r)) == StatusBytes(r)
    ensures forall i :: 0 <= i < |StatusParts(r)| ==> |StatusParts(r)[i].bytes| > 0
  {
    hide IntParts, StrParts, StrBytes, Int32Bytes, AllBytes;
    IntPartsAre(r.exception);
    IntPartsAre(0);
    IntPartsAre(r.errorCode);
    StrPartsAre(r.message);
    assert AllBytes([]) == [] by { NoParts(); }
    BytesConcat(IntParts(r.exception), BodyParts(r));
    BytesConcat(StrParts(r.message), IntParts(0) + ExtraParts(r));
    BytesConcat(IntParts(0), ExtraParts(r));
    PartsHaveBytes(r);
  }

  lemma NoParts()
    ensures AllBytes([]) == []
  {
  }

  lemma PartsHaveBytes(r: Record)
    requires |r.message| <= STRING_CAPACITY
    ensures forall i :: 0 <= i < |StatusParts(r)| ==> |StatusParts(r)[i].bytes| > 0
  {
    hide Int32Bytes, Padded;
  }

  /** The whole wire format is appended if and only if each piece has room after the ones before it. */
  lemma WholeStatus(room: Space, r: Record, error: int)
    requires |r.message| <= STRING_CAPACITY
    ensures var e := Emit(room, StatusParts(r), error);
            && (e.bytes == StatusBytes(r) <==> AllTaken(room, StatusParts(r)))
            && (e.bytes == StatusBytes(r) ==> e.status == STATUS_OK)
  {
    hide Emit, AllTaken, StatusParts, StatusBytes, AllBytes;
    StatusPartsAre(r);
    AllOrNot(room, StatusParts(r), error);
  }

  /** Where an error is recorded, nothing is left out: success is all of it. */
  lemma {:induction false} NothingLeftOut(room: Space, parts: seq<Part>, error: int)
    requires error != STATUS_OK
    ensures Emit(room, parts, error).status == STATUS_OK <==> AllTaken(room, parts)
    decreases |parts|
  {
    if parts != [] && room.Takes(|parts[0].bytes|) { NothingLeftOut(room.After(|parts[0].bytes|), parts[1..], error); }
  }

  /** Room for the empty stack trace and what the exception adds. */
  predicate TailFits(room: Space, r: Record) {
    room.Takes(4) && (ExtraParts(r) != [] ==> room.After(4).Takes(4))
  }

  lemma TailEmit(room: Space, r: Record, error: int)
    ensures Emit(room, IntParts(0) + ExtraParts(r), error).status == STATUS_OK <==> TailFits(room, r)
  {
    hide Int32Bytes, Emit, IntParts, Space.Takes, Space.After;
    EmitConcat(room, IntParts(0), ExtraParts(r), error);
    IntPartsEmit(room, 0, error);
    EmitNothing(room.After(4), error);
    IntPartsEmit(room.After(4), 0, error);
    IntPartsEmit(room.After(4), r.errorCode, error);
    assert IntParts(0) != [] && IntParts(r.errorCode) != [] by { IntPartsAre(0); IntPartsAre(r.errorCode); NoParts(); }
  }

  /** When a write reports success: what is refused may only be the characters, with no error recorded. */
  predicate ReportsSuccess(room: Space, r: Record, error: int) {
    var after, n := room.After(4).After(4), PadSize(|r.message| + 1);
    && room.Takes(4)
    && (r.exception == EX_NONE
        || (room.After(4).Takes(4)
            && if after.Takes(n) then TailFits(after.After(n), r) else error == STATUS_OK && TailFits(after, r)))
  }

  lemma StatusEmit(room: Space, r: Record, error: int)
    requires |r.message| <= STRING_CAPACITY
    ensures Emit(room, StatusParts(r), error).status == STATUS_OK <==> ReportsSuccess(room, r, error)
  {
    hide Int32Bytes, StrBytes, Emit, Space.Takes, Space.After, StrParts, IntParts, TailFits, ExtraParts;
    var after := room.After(4).After(4);
    EmitConcat(room, IntParts(r.exception), BodyParts(r), error);
    IntPartsEmit(room, r.exception, error);
    EmitNothing(room.After(4), error);
    EmitConcat(room.After(4), StrParts(r.message), IntParts(0) + ExtraParts(r), error);
    StrPartsEmit(room.After(4), r.message, error);
    TailEmit(after, r, error);
    TailEmit(after.After(PadSize(|r.message| + 1)), r, error);
  }

  /** A status is reported as written and is not all there if and only if no error is recorded and every piece has
      room but the characters of the message. */
  lemma LooksWritten(room: Space, r: Record, error: int)
    requires |r.message| <= STRING_CAPACITY
    ensures var e, after := Emit(room, StatusParts(r), error), room.After(4).After(4);
            e.status == STATUS_OK && e.bytes != StatusBytes(r)
            <==> (&& r.exception != EX_NONE && error == STATUS_OK && room.Takes(4) && room.After(4).Takes(4)
                  && !after.Takes(PadSize(|r.message| + 1)) && TailFits(after, r))
  {
    hide Emit, Space.Takes, Space.After, StatusBytes, StatusParts, AllTaken, TailFits;
    WholeStatus(room, r, error);
    StatusEmit(room, r, error);
    StatusEmit(room, r, STATUS_BAD_VALUE);
    NothingLeftOut(room, StatusParts(r), STATUS_BAD_VALUE);
  }

  /** Such a place: sixteen bytes of spare capacity, and a size whose three halves pass the limit. */
  lemma MessageLost(text: seq<Byte>)
    requires 8 <= |text| <= STRING_CAPACITY
    ensures var room, r := Space(0x5555_5548, 0x5555_5548, 0x5555_5558), Record(EX_SERVICE_SPECIFIC, 7, text);
            var e := Emit(room, StatusParts(r), STATUS_OK);
            e.status == STATUS_OK && e.bytes != StatusBytes(r)
  {
    hide Emit, StatusBytes, StatusParts;
    LooksWritten(Space(0x5555_5548, 0x5555_5548, 0x5555_5558), Record(EX_SERVICE_SPECIFIC, 7, text), STATUS_OK);
  }

  // ---------------------------------------------------------------- the class

  class Status {
    var mException: Int32
    var mErrorCode: Int32
    var mMessage: seq<Byte> // the first mSize bytes of the String

    function Fields(): Record
      reads this
    {
      Record(mException, mErrorCode, mMessage)
    }

    constructor (r: Record)
      ensures Fields() == r
    {
      mException, mErrorCode, mMessage := r.exception, r.errorCode, r.message;
    }

    /** Status_setFromStatusT. */
    method SetFromStatusT(status: Int32)
      modifies this
      ensures Fields() == if status == STATUS_OK then Record(EX_NONE, STATUS_OK, [])
                          else Record(EX_TRANSACTION_FAILED, status, [])
    {
      mException := if status == STATUS_OK then EX_NONE else EX_TRANSACTION_FAILED;
      mErrorCode := status;
      mMessage := [];
    }

    /** Status_writeToParcel, at the end of a parcel that owns its data. */
    method WriteToParcel(p: Buffer) returns (status: int)
      requires p.Bounded() && !p.mForeign && p.mDataPos == p.mDataSize && |mMessage| <= STRING_CAPACITY
      modifies p, p.mData
      ensures p.Bounded() && (p.mData == old(p.mData) || fresh(p.mData))
      ensures mException == EX_TRANSACTION_FAILED ==> status == mErrorCode && Appended(p, [])
      ensures mException != EX_TRANSACTION_FAILED ==>
                var e := Emit(old(p.Room()), StatusParts(Fields()), old(p.mError)); Emits(p, e) && status == e.status
      ensures old(p.Orderly()) ==> p.Orderly()
    {
      hide StrParts, IntParts, Emit, EntryRefs, TableRefs, Buffer.Orderly, Buffer.Contents, Buffer.Room;
      if mException == EX_TRANSACTION_FAILED {
        assert p.Contents() + [] == p.Contents();
        return mErrorCode;
      }
      ghost var c, room := p.Contents(), p.Room();
      status := AppendInt32(p, mException);
      ghost var head := IntParts(mException);
      if status != STATUS_OK || mException == EX_NONE {
        assert head + [] == head;
        EmitConcat(room, head, BodyParts(Fields()), p.mError);
        return;
      }
      EmitConcat(room, head, BodyParts(Fields()), p.mError);
      ghost var first := Emit(room, head, p.mError);
      status := WriteBody(p);
      assert (c + first.bytes) + Emit(first.room, BodyParts(Fields()), p.mError).bytes
          == c + (first.bytes + Emit(first.room, BodyParts(Fields()), p.mError).bytes);
    }

    /** The message, an empty stack trace and what the exception adds. */
    method WriteBody(p: Buffer) returns (status: int)
      requires p.Bounded() && !p.mForeign && p.mDataPos == p.mDataSize
      requires |mMessage| <= STRING_CAPACITY && mException != EX_NONE
      modifies p, p.mData
      ensures p.Bounded() && (p.mData == old(p.mData) || fresh(p.mData))
      ensures var e := Emit(old(p.Room()), BodyParts(Fields()), old(p.mError)); Emits(p, e) && status == e.status
      ensures old(p.Orderly()) ==> p.Orderly()
    {
      hide StrParts, IntParts, ExtraParts, Emit, EntryRefs, TableRefs, Buffer.Orderly, Buffer.Contents, Buffer.Room;
      ghost var c, room, text := p.Contents(), p.Room(), StrParts(mMessage);
      ghost var rest := IntParts(0) + ExtraParts(Fields());
      assert BodyParts(Fields()) == text + rest;
      EmitConcat(room, text, rest, p.mError);
      status := AppendString(p, mMessage);
      if status != STATUS_OK {
        return;
      }
      ghost var first := Emit(room, text, p.mError);
      status := WriteTrace(p);
      assert (c + first.bytes) + Emit(first.room, rest, p.mError).bytes
          == c + (first.bytes + Emit(first.room, rest, p.mError).bytes);
    }

    method WriteTrace(p: Buffer) returns (status: int)
      requires p.Bounded() && !p.mForeign && p.mDataPos == p.mDataSize
      modifies p, p.mData
      ensures p.Bounded() && (p.mData == old(p.mData) || fresh(p.mData))
      ensures var e := Emit(old(p.Room()), IntParts(0) + ExtraParts(Fields()), old(p.mError));
              Emits(p, e) && status == e.status
      ensures old(p.Orderly()) ==> p.Orderly()
    {
      hide IntParts, Emit, EntryRefs, TableRefs, Buffer.Orderly, Buffer.Contents, Buffer.Room;
      ghost var c, room, extra := p.Contents(), p.Room(), ExtraParts(Fields());
      EmitConcat(room, IntParts(0), extra, p.mError);
      status := AppendInt32(p, 0);
      if status != STATUS_OK {
        return;
      }
      ghost var first := Emit(room, IntParts(0), p.mError);
      if mException == EX_SERVICE_SPECIFIC {
        status := AppendInt32(p, mErrorCode);
      } else if mException == EX_PARCELABLE {
        status := AppendInt32(p, 0);
      } else {
        EmitNothing(first.room, p.mError);
        assert extra == [];
      }
      assert (c + first.bytes) + Emit(first.room, extra, p.mError).bytes
          == c + (first.bytes + Emit(first.room, extra, p.mError).bytes);
    }

    /** Status_readFromParcel. The lengths on its stack start as `garbage`, the last byte of its String as `stray`. */
    method ReadFromParcel(p: Buffer, garbage: Int32, stray: Byte) returns (r: Parsed)
      requires p.Bounded()
      modifies this, p`mDataPos, p`mNextObjectHint
      ensures p.Bounded() && r == Parse(p.Contents(), old(p.mDataPos), old(Fields()), stray)
      ensures r.Returned? ==> r.record == Fields() && r.end == p.mDataPos
    {
      hide Int32Of, Value, CString, ParseMessage;
      var status, exception := ReadInt32(p, mException);
      mException := exception;
      if status != STATUS_OK {
        r := Failure(p, status);
        return;
      }
      if mException == EX_HAS_REPLY_HEADER {
        var start := p.mDataPos;
        var size;
        status, size := ReadBlock(p, garbage);
        if status != STATUS_OK {
          r := Failure(p, status);
          return;
        }
        p.SetDataPosition(start + size);
        mException := EX_NONE;
      }
      if mException == EX_NONE {
        return Returned(status, Fields(), p.mDataPos);
      }
      r := ReadMessage(p, garbage, stray);
    }

    /** The early returns: record the failure and report it. */
    method Failure(p: Buffer, status: Int32) returns (r: Parsed)
      requires status != STATUS_OK
      modifies this
      ensures r == Fail(status, p.mDataPos) && r.record == Fields()
    {
      SetFromStatusT(status);
      r := Returned(status, Fields(), p.mDataPos);
    }

    /** Read a block's length and compare it with what was left before the length. */
    method ReadBlock(p: Buffer, garbage: Int32) returns (status: Int32, size: Int32)
      requires p.Bounded()
      modifies p`mDataPos
      ensures p.Bounded()
      ensures match Block(p.Contents(), old(p.mDataPos))
              case Failed(st, end) => status == st && st != STATUS_OK && p.mDataPos == end
              case Got(n, end) =>
                && status == STATUS_OK && size == n && 0 <= n
                && p.mDataPos == end && old(p.mDataPos) + n <= p.mDataSize
    {
      hide Int32Of;
      var avail := p.mDataSize - p.mDataPos;
      status, size := ReadInt32(p, garbage);
      if status == STATUS_OK && (size < 0 || size > avail) {
        status := STATUS_UNKNOWN_ERROR;
      }
    }

    /** From the message on. */
    method ReadMessage(p: Buffer, garbage: Int32, stray: Byte) returns (r: Parsed)
      requires p.Bounded()
      modifies this, p`mDataPos, p`mNextObjectHint
      ensures p.Bounded() && r == ParseMessage(p.Contents(), old(p.mDataPos), old(Fields()), stray)
      ensures r.Returned? ==> r.record == Fields() && r.end == p.mDataPos
    {
      hide Int32Of, Value, CString, StrAt, ParseExtra;
      var message := ReadString16(p, garbage);
      if message.Failed? {
        r := Failure(p, message.status);
        return;
      }
      if message.Aborted? {
        return Unterminated;
      }
      if |message.value| > STRING_CAPACITY {
        return TooLong;
      }
      mMessage := Received(message.value, stray);
      var start := p.mDataPos;
      var status, size := ReadBlock(p, garbage);
      if status != STATUS_OK {
        r := Failure(p, status);
        return;
      }
      if size != 0 {
        p.SetDataPosition(start + size);
      }
      r := ReadExtra(p, garbage);
    }

    /** What follows the skipped stack trace. */
    method ReadExtra(p: Buffer, garbage: Int32) returns (r: Parsed)
      requires p.Bounded()
      modifies this, p`mDataPos, p`mNextObjectHint
      ensures p.Bounded() && r == ParseExtra(p.Contents(), old(p.mDataPos), old(Fields()))
      ensures r.Returned? && r.record == Fields() && r.end == p.mDataPos
    {
      hide Int32Of;
      var status := STATUS_OK;
      if mException == EX_SERVICE_SPECIFIC {
        var code;
        status, code := ReadInt32(p, mErrorCode);
        mErrorCode := code;
      } else if mException == EX_PARCELABLE {
        var start := p.mDataPos;
        var size;
        status, size := ReadBlock(p, garbage);
        if status == STATUS_OK {
          p.SetDataPosition(start + size);
        }
      }
      if status != STATUS_OK {
        r := Failure(p, status);
        return;
      }
      r := Returned(status, Fields(), p.mDataPos);
    }
  }

  /** Writing a status and reading it back through a parcel. */
  method WriteThenRead(r: Record, before: Record, garbage: Int32, stray: Byte)
    returns (got: Record, status: int, left: int)
    requires |r.message| <= STRING_CAPACITY && 0 !in r.message
    requires r.exception != EX_TRANSACTION_FAILED && r.exception != EX_HAS_REPLY_HEADER
    ensures status == STATUS_OK && got.exception == r.exception
    ensures r.exception != EX_NONE ==> got.message == Received(r.message, stray)
    ensures r.exception == EX_SERVICE_SPECIFIC ==> got.errorCode == r.errorCode
    ensures left == if r.exception == EX_PARCELABLE then 4 else 0
  {
    hide Parse, StatusBytes, Received, Buffer.Orderly;
    var p;
    p, status := WriteFresh(r);
    var reader := new Status(before);
    p.SetDataPosition(0);
    assert p.Contents()[0..|StatusBytes(r)|] == StatusBytes(r);
    ParseRoundTrip(p.Contents(), 0, r, before, stray);
    var parsed := reader.ReadFromParcel(p, garbage, stray);
    got, status, left := parsed.record, parsed.status, p.mDataSize - p.mDataPos;
  }

  method WriteFresh(r: Record) returns (p: Buffer, status: int)
    requires |r.message| <= STRING_CAPACITY && r.exception != EX_TRANSACTION_FAILED
    ensures fresh(p) && p.Bounded() && p.Contents() == StatusBytes(r) && status == STATUS_OK
  {
    hide StatusBytes, StatusParts, Emit, AllBytes, AllTaken, Buffer.Orderly;
    p := new Buffer(0);
    var writer := new Status(r);
    StatusBytesFit(r);
    StatusPartsAre(r);
    RoomForAll(p.Room(), StatusParts(r));
    WholeStatus(p.Room(), r, p.mError);
    status := writer.WriteToParcel(p);
    assert p.Contents() == [] + StatusBytes(r) == StatusBytes(r);
  }

  lemma StatusBytesFit(r: Record)
    requires |r.message| <= STRING_CAPACITY
    ensures |StatusBytes(r)| <= 84
  {
  }
}
