/** The blocking stream queue (SocketQueueBase.h) over byte streams whose transfers may be short or fail. A system
    call that succeeds leaves errno alone. */
module SocketQueue {
  import opened Sums

  const EIO: int := 5
  const EWOULDBLOCK: int := 11

  /** One direction of a connected socket. When it is shared, another process works at its other end. */
  class Stream {
    const shared: bool
    var pipe: seq<Byte> // accepted and not yet delivered
    var rets: seq<int>  // what this process's system calls on it have returned
    ghost var sent: seq<Byte>
    ghost var delivered: seq<Byte>

    /** Nothing is lost, invented or reordered on the way. */
    ghost predicate Valid()
      reads this
    {
      sent == delivered + pipe
    }

    constructor (shared: bool)
      ensures Valid() && sent == [] && pipe == [] && delivered == [] && rets == [] && this.shared == shared
    {
      pipe, sent, delivered, rets := [], [], [], [];
      this.shared := shared;
    }

    /** write(2): any part of the bytes is accepted, or none and an error is left in errno. A reader in another
        process may take some in the meantime. */
    method SysWrite(bytes: seq<Byte>, before: int) returns (ret: int, errno: int)
      requires Valid()
      modifies this
      ensures Valid() && old(delivered) <= delivered && (shared || delivered == old(delivered))
      ensures -1 <= ret <= |bytes| && sent == old(sent) + (if ret > 0 then bytes[..ret] else [])
      ensures errno == before || ret == -1
      ensures (ret == -1 ==> errno > 0) && rets == old(rets) + [ret]
    {
      var n: int, e: int := *, *;
      if 0 <= n <= |bytes| {
        pipe, sent := pipe + bytes[..n], sent + bytes[..n];
        ret, errno := n, before;
      } else {
        ret, errno := -1, if e > 0 then e else EIO;
      }
      rets := rets + [ret];
      var taken: int := *;
      if shared && 0 <= taken <= |pipe| {
        pipe, delivered := pipe[taken..], delivered + pipe[..taken];
      }
    }

    /** read(2): any number of the next bytes, or an error. A writer in another process may add some first. */
    method SysRead(max: nat, before: int) returns (ret: int, bytes: seq<Byte>, errno: int)
      requires Valid()
      modifies this
      ensures Valid() && old(sent) <= sent && (shared || sent == old(sent))
      ensures -1 <= ret <= max && |bytes| == (if ret > 0 then ret else 0)
      ensures delivered == old(delivered) + bytes
      ensures errno == before || ret == -1
      ensures (ret == -1 ==> errno > 0) && rets == old(rets) + [ret]
    {
      var more: seq<Byte> := *;
      if shared { pipe, sent := pipe + more, sent + more; }
      var n: int, e: int := *, *;
      if 0 <= n <= max && n <= |pipe| {
        bytes := pipe[..n];
        pipe, delivered := pipe[n..], delivered + bytes;
        ret, errno := n, before;
      } else {
        ret, bytes, errno := -1, [], if e > 0 then e else EIO;
      }
      rets := rets + [ret];
    }
  }

  function Positive(ret: int): int { if ret > 0 then ret else 0 }

  /** The system calls of one transfer of `total` bytes: it goes on until all is moved or a call moves nothing. */
  predicate Tried(rets: seq<int>, total: nat, moved: nat, result: bool) {
    && (rets == [] <==> total == 0)
    && (forall i :: 0 <= i < |rets| - 1 ==> rets[i] > 0)
    && (rets != [] ==> (result <==> rets[|rets| - 1] > 0))
    && moved == Sum(rets, Positive) && (result <==> moved == total)
  }

  /** One end of a socket: the stream it reads and the stream it writes. */
  class SocketQueueBase {
    const mIn: Stream
    const mOut: Stream
    var mBusy: bool

    constructor (incoming: Stream, outgoing: Stream)
      ensures mIn == incoming && mOut == outgoing && !mBusy
    {
      mIn, mOut, mBusy := incoming, outgoing, false;
    }

    /** The array write. `moved` bytes went out, contiguously and in order; success is all of them, and a failure has
        its cause in the last system call. The source does not report `moved`. */
    method Write(data: seq<Byte>) returns (result: bool, moved: nat)
      requires mOut.Valid()
      modifies this`mBusy, mOut
      ensures mOut.Valid() && !mBusy && moved <= |data|
      ensures old(mOut.rets) <= mOut.rets && Tried(mOut.rets[|old(mOut.rets)|..], |data|, moved, result)
      ensures mOut.sent == old(mOut.sent) + data[..moved] && old(mOut.delivered) <= mOut.delivered
      ensures !mOut.shared ==> mOut.delivered == old(mOut.delivered)
    {
      hide Going, Tried;
      var remain := |data|;
      var offset := 0;
      result := true;
      moved := 0;
      mBusy := true;
      var errno := 0;
      ghost var start := |mOut.rets|;
      assert mOut.rets[start..] == [] && Going([], 0) by { NothingYet(); }
      while remain != 0
        invariant old(mOut.rets) <= mOut.rets && Going(mOut.rets[start..], offset)
        invariant mOut.Valid() && 0 <= offset && 0 <= remain && offset + remain == |data| && offset == moved && result
        invariant mOut.sent == old(mOut.sent) + data[..offset] && old(mOut.delivered) <= mOut.delivered && errno == 0
        invariant !mOut.shared ==> mOut.delivered == old(mOut.delivered)
        decreases remain
      {
        var ret;
        ghost var before := mOut.rets[start..];
        ret, errno := mOut.SysWrite(data[offset..], errno);
        assert mOut.rets[start..] == before + [ret];
        OneMore(before, ret, offset, remain);
        if errno == EWOULDBLOCK {
          result := false;
          break;
        } else if ret <= 0 {
          result := false;
          break;
        }
        assert data[..offset] + data[offset..][..ret] == data[..offset + ret];
        offset, remain := offset + ret, remain - ret;
        moved := offset;
      }
      if result { AllMoved(mOut.rets[start..], |data|); }
      mBusy := false;
    }

    /** The array read. The next `moved` bytes of the stream arrive in order; success is a full array. */
    method Read(data: array<Byte>) returns (result: bool, moved: nat)
      requires mIn.Valid()
      modifies this`mBusy, mIn, data
      ensures mIn.Valid() && !mBusy && moved <= data.Length
      ensures old(mIn.rets) <= mIn.rets && Tried(mIn.rets[|old(mIn.rets)|..], data.Length, moved, result)
      ensures mIn.delivered == old(mIn.delivered) + data[..moved] && data[moved..] == old(data[..])[moved..]
      ensures old(mIn.sent) <= mIn.sent && (mIn.shared || mIn.sent == old(mIn.sent))
    {
      hide Going, Tried;
      var remain := data.Length;
      var offset := 0;
      result := true;
      moved := 0;
      mBusy := true;
      var errno := 0;
      ghost var before, start := data[..], |mIn.rets|;
      assert mIn.rets[start..] == [] && Going([], 0) by { NothingYet(); }
      while remain != 0
        invariant old(mIn.rets) <= mIn.rets && Going(mIn.rets[start..], offset)
        invariant mIn.Valid() && 0 <= offset && 0 <= remain && offset + remain == data.Length && offset == moved
        invariant result && errno == 0 && mIn.delivered == old(mIn.delivered) + data[..offset]
        invariant old(mIn.sent) <= mIn.sent && (mIn.shared || mIn.sent == old(mIn.sent))
        invariant data[offset..] == before[offset..]
        decreases remain
      {
        var ret, bytes;
        ghost var log := mIn.rets[start..];
        ret, bytes, errno := mIn.SysRead(remain, errno);
        assert mIn.rets[start..] == log + [ret];
        OneMore(log, ret, offset, remain);
        if errno == EWOULDBLOCK {
          result := false;
          break;
        } else if ret <= 0 {
          result := false;
          break;
        }
        assert data[offset..][ret..] == data[offset + ret..] && before[offset..][ret..] == before[offset + ret..];
        Receive(data, offset, bytes);
        offset, remain := offset + ret, remain - ret;
        moved := offset;
      }
      if result { AllMoved(mIn.rets[start..], data.Length); }
      mBusy := false;
    }
  }

  /** What read(2) does to the caller's memory. */
  method Receive(data: array<Byte>, offset: nat, bytes: seq<Byte>)
    requires offset + |bytes| <= data.Length
    modifies data
    ensures data[..offset + |bytes|] == old(data[..offset]) + bytes
    ensures data[offset + |bytes|..] == old(data[offset + |bytes|..])
  {
    forall i | 0 <= i < |bytes| { data[offset + i] := bytes[i]; }
  }

  /** A transfer under way that has moved `offset` bytes. */
  predicate Going(rets: seq<int>, offset: nat) {
    (forall i :: 0 <= i < |rets| ==> rets[i] > 0) && offset == Sum(rets, Positive) && (rets == [] <==> offset == 0)
  }

  lemma OneMore(rets: seq<int>, ret: int, offset: nat, remain: nat)
    requires Going(rets, offset) && 0 < remain && ret <= remain
    ensures ret > 0 ==> Going(rets + [ret], offset + ret)
    ensures ret <= 0 ==> Tried(rets + [ret], offset + remain, offset, false)
  {
    SumAppend(rets, ret, Positive);
  }

  lemma NothingYet()
    ensures Going([], 0)
  {
  }

  lemma AllMoved(rets: seq<int>, total: nat)
    requires Going(rets, total)
    ensures Tried(rets, total, total, true)
  {
  }

  // ---------------------------------------------------------------- both ends

  /** One call at the first or the second end of a connection. */
  datatype Call = Write(first: bool, data: seq<Byte>) | Read(first: bool, count: nat)

  /** What a call reports, the bytes it moved, and what its system calls returned. */
  datatype Outcome = Outcome(result: bool, bytes: seq<Byte>, rets: seq<int>)

  /** Everything that the first `k` calls wrote at one end. */
  function Written(calls: seq<Call>, outcomes: seq<Outcome>, first: bool, k: nat): seq<Byte>
    requires k <= |calls| && k <= |outcomes|
  {
    if k == 0 then [] else
      Written(calls, outcomes, first, k - 1)
      + if calls[k - 1].Write? && calls[k - 1].first == first then outcomes[k - 1].bytes else []
  }

  /** Everything that the first `k` calls read at one end. */
  function Received(calls: seq<Call>, outcomes: seq<Outcome>, first: bool, k: nat): seq<Byte>
    requires k <= |calls| && k <= |outcomes|
  {
    if k == 0 then [] else
      Received(calls, outcomes, first, k - 1)
      + if calls[k - 1].Read? && calls[k - 1].first == first then outcomes[k - 1].bytes else []
  }

  /** After `k` calls, what each end has read is a prefix of what the other has written. */
  predicate InOrderAt(calls: seq<Call>, outcomes: seq<Outcome>, k: nat)
    requires k <= |calls| && k <= |outcomes|
  {
    && Received(calls, outcomes, false, k) <= Written(calls, outcomes, true, k)
    && Received(calls, outcomes, true, k) <= Written(calls, outcomes, false, k)
  }

  predicate InOrder(calls: seq<Call>, outcomes: seq<Outcome>, n: nat)
    requires n <= |calls| && n <= |outcomes|
  {
    forall k :: 0 <= k <= n ==> InOrderAt(calls, outcomes, k)
  }

  lemma {:induction false} LogsExtend(calls: seq<Call>, outcomes: seq<Outcome>, o: Outcome, first: bool, k: nat)
    requires k <= |calls| && k <= |outcomes|
    ensures Written(calls, outcomes + [o], first, k) == Written(calls, outcomes, first, k)
    ensures Received(calls, outcomes + [o], first, k) == Received(calls, outcomes, first, k)
  {
    if k > 0 { LogsExtend(calls, outcomes, o, first, k - 1); }
  }

  /** The logs after one more call. */
  lemma NextCall(calls: seq<Call>, outcomes: seq<Outcome>, o: Outcome, first: bool)
    requires |outcomes| < |calls|
    ensures var n, c := |outcomes|, calls[|outcomes|];
            && Written(calls, outcomes + [o], first, n + 1)
               == Written(calls, outcomes, first, n) + (if c.Write? && c.first == first then o.bytes else [])
            && Received(calls, outcomes + [o], first, n + 1)
               == Received(calls, outcomes, first, n) + (if c.Read? && c.first == first then o.bytes else [])
  {
    LogsExtend(calls, outcomes, o, first, |outcomes|);
  }

  lemma StaysInOrder(calls: seq<Call>, outcomes: seq<Outcome>, o: Outcome)
    requires |outcomes| < |calls| && InOrder(calls, outcomes, |outcomes|)
    requires InOrderAt(calls, outcomes + [o], |outcomes| + 1)
    ensures InOrder(calls, outcomes + [o], |outcomes| + 1)
  {
    forall k | 0 <= k <= |outcomes| ensures InOrderAt(calls, outcomes + [o], k) {
      assert InOrderAt(calls, outcomes, k);
      LogsExtend(calls, outcomes, o, true, k);
      LogsExtend(calls, outcomes, o, false, k);
    }
  }

  /** A call moved a prefix of what it was asked to move, tried on while its system calls moved something, and reports
      success exactly when it moved all. */
  predicate Fair(c: Call, o: Outcome) {
    match c
    case Write(_, data) => o.bytes <= data && Tried(o.rets, |data|, |o.bytes|, o.result)
    case Read(_, count) => |o.bytes| <= count && Tried(o.rets, count, |o.bytes|, o.result)
  }

  /** Any calls at the two ends of a new connection, of any sizes and in any order, failing ones included: at every
      moment what one end has read is a prefix of what the other has written, and what is left is in flight. */
  method Exchange(calls: seq<Call>) returns (outcomes: seq<Outcome>, leftFirst: seq<Byte>, leftSecond: seq<Byte>)
    ensures |outcomes| == |calls| && forall i :: 0 <= i < |calls| ==> Fair(calls[i], outcomes[i])
    ensures InOrder(calls, outcomes, |calls|)
    ensures Written(calls, outcomes, true, |calls|) == Received(calls, outcomes, false, |calls|) + leftFirst
    ensures Written(calls, outcomes, false, |calls|) == Received(calls, outcomes, true, |calls|) + leftSecond
  {
    hide Written, Received, InOrder, Fair;
    var forth := new Stream(false);
    var back := new Stream(false);
    var a := new SocketQueueBase(back, forth);
    var b := new SocketQueueBase(forth, back);
    outcomes := [];
    NoCalls(calls);
    for i := 0 to |calls|
      invariant |outcomes| == i && forall k :: 0 <= k < i ==> Fair(calls[k], outcomes[k])
      invariant forth.Valid() && back.Valid()
      invariant forth.sent == Written(calls, outcomes, true, i) && back.sent == Written(calls, outcomes, false, i)
      invariant forth.delivered == Received(calls, outcomes, false, i)
      invariant back.delivered == Received(calls, outcomes, true, i)
      invariant InOrder(calls, outcomes, i)
    {
      var o := Perform(if calls[i].first then a else b, calls[i]);
      NextCall(calls, outcomes, o, true);
      NextCall(calls, outcomes, o, false);
      StaysInOrder(calls, outcomes, o);
      outcomes := outcomes + [o];
    }
    leftFirst, leftSecond := forth.pipe, back.pipe;
  }

  lemma NoCalls(calls: seq<Call>)
    ensures Written(calls, [], true, 0) == Written(calls, [], false, 0) == []
    ensures Received(calls, [], true, 0) == Received(calls, [], false, 0) == [] && InOrder(calls, [], 0)
  {
  }

  /** One call at one end; it moves bytes on its own stream only. */
  method Perform(queue: SocketQueueBase, c: Call) returns (o: Outcome)
    requires queue.mIn != queue.mOut && queue.mIn.Valid() && queue.mOut.Valid()
    requires !queue.mIn.shared && !queue.mOut.shared
    modifies queue`mBusy, queue.mIn, queue.mOut
    ensures queue.mIn.Valid() && queue.mOut.Valid() && Fair(c, o)
    ensures queue.mOut.sent == old(queue.mOut.sent) + (if c.Write? then o.bytes else [])
    ensures queue.mIn.delivered == old(queue.mIn.delivered) + (if c.Read? then o.bytes else [])
    ensures queue.mOut.delivered == old(queue.mOut.delivered) && queue.mIn.sent == old(queue.mIn.sent)
  {
    match c {
      case Write(_, data) =>
        var from := |queue.mOut.rets|;
        var result, moved := queue.Write(data);
        o := Outcome(result, data[..moved], queue.mOut.rets[from..]);
      case Read(_, count) =>
        var data := new Byte[count];
        var from := |queue.mIn.rets|;
        var result, moved := queue.Read(data);
        o := Outcome(result, data[..moved], queue.mIn.rets[from..]);
    }
  }
}
