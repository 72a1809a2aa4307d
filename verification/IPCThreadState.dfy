/** The calling identity that a binder thread shows (IPCThreadState.c), through arbitrarily nested calls: a
    handler may call out, serve other incoming transactions while it waits, and so on. With it go the references that
    the driver asks the thread to take and drop on a local object.

    The driver is a script of read results, any length and any content; when it ends the driver has closed
    the file and reads fail. Handlers are arbitrary programs over what a handler can do with its thread. */
module IPCThreadState {
  import opened Sums

  const STATUS_OK: int := 0
  const STATUS_UNKNOWN_TRANSACTION: int := -74
  const STATUS_DEAD_OBJECT: int := -32
  const STATUS_FAILED_TRANSACTION: int := -2147483646
  const STATUS_TIMED_OUT: int := -110
  const EBADF: int := -9
  const ECONNREFUSED: int := -111
  const UNSET_WORK_SOURCE: int := -1
  const SECCTX_TMP: int := 1 // the security context that every sender is given

  /** Everything that getCallingPid and its relatives report, and the serving pointer. */
  datatype Context = Context(pid: int, sid: int, uid: int, strictMode: int, flags: int,
                             workSource: int, propagate: bool, serving: nat)

  /** An incoming transaction: who sent it, and what the target will do with it. A target that is not alive
      refuses the strong reference; the context object always is. */
  datatype Transaction = Transaction(pid: int, uid: int, flags: int,
                                     targetAlive: bool, handler: seq<Action>, result: int)

  /** Bit zero of the flags, TF_ONE_WAY. */
  predicate OneWay(flags: int) { flags % 2 == 1 }

  /** What a handler can do with its thread. */
  datatype Action =
    | Look                                  // read the caller's identity
    | Call(flags: int, dataError: int)      // transact with another process
    | SetStrictMode(policy: int)
    | SetWorkSource(uid: int, propagate: bool)
    | SetFlags(flags: int)
    | ClearCaller                           // act as this process from here on

  datatype Incoming =
    | TransactionComplete                // also BR_ONEWAY_SPAM_SUSPECT
    | DeadReply
    | FailedReply                        // also BR_FROZEN_REPLY
    | Reply(status: int)
    | BrTransaction(tr: Transaction)     // also BR_TRANSACTION_SEC_CTX
    | DeadBinder(calls: seq<(int, int)>) // the recipients may call out: flags and data error of each call
    | Error(code: int)
    | Acquire(local: nat)               // references on a local object that the driver wants or gives back
    | Release(local: nat)
    | IncRefs(local: nat)
    | DecRefs(local: nat)
    | Noop                               // also BR_OK, BR_SPAWN_LOOPER and BR_CLEAR_DEATH_NOTIFICATION_DONE
    | Finished
    | Unknown

  datatype Outgoing = BcTransaction(flags: int) | BcReply(status: int) | BcDeadBinderDone
    | BcAcquireDone(local: nat) | BcIncRefsDone(local: nat) | BcEnterLooper(isMain: bool) | BcExitLooper

  /** One reading of the identity by a handler: what it saw, and whose request it was serving. */
  datatype Sighting = Sighting(pid: int, sid: int, uid: int, senderPid: int, senderSid: int, senderUid: int)

  predicate Honest(s: Sighting) { s.pid == s.senderPid && s.sid == s.senderSid && s.uid == s.senderUid }

  function Size(script: seq<seq<Incoming>>): nat {
    if script == [] then 0 else 1 + |script[0]| + Size(script[1..])
  }

  /** Commands that come in, in order. */
  function Flat(script: seq<seq<Incoming>>): seq<Incoming> {
    if script == [] then [] else script[0] + Flat(script[1..])
  }

  /** The acknowledgement that a command calls for, counted for one command `ack` to the driver. */
  predicate IsAck(c: Outgoing) { c.BcAcquireDone? || c.BcIncRefsDone? || c.BcDeadBinderDone? }

  function Same(ack: Outgoing): Outgoing -> int { c => Bit(IsAck(c) && c == ack) }

  predicate IsCallFor(cmd: Incoming, ack: Outgoing) {
    match cmd
    case Acquire(o) => ack == BcAcquireDone(o)
    case IncRefs(o) => ack == BcIncRefsDone(o)
    case DeadBinder(_) => ack == BcDeadBinderDone
    case _ => false
  }

  function CallsFor(ack: Outgoing): Incoming -> int { cmd => Bit(IsCallFor(cmd, ack)) }

  /** What a command makes of the driver's references on `local`. */
  function StrongGain(local: nat): Incoming -> int { c => Bit(c == Acquire(local)) - Bit(c == Release(local)) }

  function WeakGain(local: nat): Incoming -> int { c => Bit(c == IncRefs(local)) - Bit(c == DecRefs(local)) }

  predicate ForRefs(cmd: Incoming) { cmd.Acquire? || cmd.Release? || cmd.IncRefs? || cmd.DecRefs? }

  lemma GainsNothing(cmd: Incoming, local: nat, ack: Outgoing)
    ensures !ForRefs(cmd) ==> StrongGain(local)(cmd) == 0 && WeakGain(local)(cmd) == 0
    ensures !ForRefs(cmd) && !cmd.DeadBinder? ==> CallsFor(ack)(cmd) == 0
  {
  }

  datatype Deref = DecWeak(local: nat) | DecStrong(local: nat)

  function DecWeaks(list: seq<nat>): seq<Deref> { seq(|list|, i requires 0 <= i < |list| => DecWeak(list[i])) }

  function DecStrongs(list: seq<nat>): seq<Deref> { seq(|list|, i requires 0 <= i < |list| => DecStrong(list[i])) }

  /** What has been dropped and what waits, in the order in which it is to go. */
  function Drops(dropped: seq<Deref>, weaks: seq<nat>, strongs: seq<nat>): seq<Deref> {
    dropped + DecWeaks(weaks) + DecStrongs(strongs)
  }

  lemma DropNext(dropped: seq<Deref>, weaks: seq<nat>, strongs: seq<nat>)
    ensures weaks != [] ==> Drops(dropped + [DecWeak(weaks[0])], weaks[1..], strongs) == Drops(dropped, weaks, strongs)
    ensures strongs != [] ==> Drops(dropped + [DecStrong(strongs[0])], [], strongs[1..]) == Drops(dropped, [], strongs)
    ensures Drops(dropped, [], []) == dropped
  {
    if weaks != [] { assert DecWeaks(weaks) == [DecWeak(weaks[0])] + DecWeaks(weaks[1..]); }
    if strongs != [] { assert DecStrongs(strongs) == [DecStrong(strongs[0])] + DecStrongs(strongs[1..]); }
  }

  function Is(local: nat): nat -> int { o => Bit(o == local) }

  // ---------------------------------------------------------------- replies

  /** What the driver sees of a thread, in order. */
  datatype Happened = Got(cmd: Incoming) | Wrote(c: Outgoing)

  function Ins(trace: seq<Happened>): seq<Incoming> {
    if trace == [] then [] else
      var e := trace[|trace| - 1];
      Ins(trace[..|trace| - 1]) + if e.Got? then [e.cmd] else []
  }

  function Outs(trace: seq<Happened>): seq<Outgoing> {
    if trace == [] then [] else
      var e := trace[|trace| - 1];
      Outs(trace[..|trace| - 1]) + if e.Wrote? then [e.c] else []
  }

  predicate WantsReply(cmd: Incoming) { cmd.BrTransaction? && !OneWay(cmd.tr.flags) }

  /** What the sender of a request is to be told: that its target is gone, the handler's error, or success. */
  function ReplyOf(tr: Transaction): int {
    if !tr.targetAlive then STATUS_UNKNOWN_TRANSACTION else if tr.result < STATUS_OK then tr.result else STATUS_OK
  }

  datatype Option<T> = None | Some(value: T)

  /** The requests that are open after one more event. The driver takes every reply for the innermost open request; a
      reply that is not what that request is to be told is an error. */
  function Next(open: Option<seq<Transaction>>, e: Happened): Option<seq<Transaction>> {
    if open == None then None
    else
      var s := open.value;
      match e
      case Got(cmd) => if WantsReply(cmd) then Some(s + [cmd.tr]) else open
      case Wrote(c) =>
        if !c.BcReply? then open
        else if s == [] || c.status != ReplyOf(s[|s| - 1]) then None
        else Some(s[..|s| - 1])
  }

  /** The requests not yet answered, innermost last; None after a wrong reply. */
  function Open(trace: seq<Happened>): Option<seq<Transaction>> {
    if trace == [] then Some([]) else Next(Open(trace[..|trace| - 1]), trace[|trace| - 1])
  }

  lemma TraceAppend(trace: seq<Happened>, e: Happened)
    ensures Open(trace + [e]) == Next(Open(trace), e)
    ensures Ins(trace + [e]) == Ins(trace) + (if e.Got? then [e.cmd] else [])
    ensures Outs(trace + [e]) == Outs(trace) + (if e.Wrote? then [e.c] else [])
  {
    assert (trace + [e])[..|trace|] == trace;
  }

  function Replies(v: int): Outgoing -> int { c => Bit(c == BcReply(v)) }

  function Requests(v: int): Incoming -> int { cmd => Bit(WantsReply(cmd) && ReplyOf(cmd.tr) == v) }

  function Telling(v: int): Transaction -> int { tr => Bit(ReplyOf(tr) == v) }

  /** While no reply was wrong, every value has been replied once for each request that is to be told it, save the open
      ones. */
  lemma {:induction false} EveryRequestAnswered(trace: seq<Happened>, v: int)
    requires Open(trace) != None
    ensures Sum(Outs(trace), Replies(v)) + Sum(Open(trace).value, Telling(v)) == Sum(Ins(trace), Requests(v))
  {
    hide Sum, Open, Ins, Outs;
    if trace == [] {
      NothingHappened(v);
    } else {
      var before, e := trace[..|trace| - 1], trace[|trace| - 1];
      assert trace == before + [e];
      TraceAppend(before, e);
      EveryRequestAnswered(before, v);
      var s := Open(before).value;
      match e {
        case Got(cmd) =>
          SumAppend(Ins(before), cmd, Requests(v));
          assert Outs(before) + [] == Outs(before);
          if WantsReply(cmd) { SumAppend(s, cmd.tr, Telling(v)); }
        case Wrote(c) =>
          SumAppend(Outs(before), c, Replies(v));
          assert Ins(before) + [] == Ins(before);
          if c.BcReply? {
            assert s == s[..|s| - 1] + [s[|s| - 1]];
            SumAppend(s[..|s| - 1], s[|s| - 1], Telling(v));
          }
      }
    }
  }

  lemma NothingHappened(v: int)
    ensures Open([]) == Some([]) && Ins([]) == [] && Outs([]) == []
    ensures Sum([], Replies(v)) == 0 && Sum([], Telling(v)) == 0 && Sum([], Requests(v)) == 0
  {
  }

  // ---------------------------------------------------------------- answers

  /** A command that ends the wait of a call with or without a reply. */
  predicate Ends(cmd: Incoming, wantReply: bool) {
    match cmd
    case TransactionComplete => !wantReply
    case Reply(_) => wantReply
    case _ => Verdict(cmd) != STATUS_OK
  }

  /** The result that a command gives, or STATUS_OK. */
  function Verdict(cmd: Incoming): int {
    match cmd
    case DeadReply => STATUS_DEAD_OBJECT
    case FailedReply => STATUS_FAILED_TRANSACTION
    case Reply(status) => status
    case Error(code) => code
    case Finished => STATUS_TIMED_OUT
    case Unknown => STATUS_UNKNOWN_TRANSACTION
    case _ => STATUS_OK
  }

  /** A command whose execution may take further commands. */
  predicate Nests(cmd: Incoming) { cmd.BrTransaction? || cmd.DeadBinder? }

  /** Of the commands from `from` on, `own` lists those that one wait took itself: none before the last ends it, and
      only the execution of one of them took those in between. */
  ghost predicate OwnLevel(taken: seq<Incoming>, from: nat, own: seq<nat>, wantReply: bool) {
    && (own != [] ==> own[0] == from)
    && (forall i :: 0 <= i < |own| ==> own[i] < |taken|)
    && (forall i :: 0 < i < |own| ==> Passed(taken, own[i - 1], own[i], wantReply))
  }

  lemma NoneTaken(taken: seq<Incoming>, wantReply: bool)
    ensures OwnLevel(taken, |taken|, [], wantReply)
  {
  }

  lemma OwnExtends(before: seq<Incoming>, taken: seq<Incoming>, from: nat, own: seq<nat>, wantReply: bool)
    requires OwnLevel(before, from, own, wantReply) && before <= taken && (own == [] ==> |before| == from)
    requires own != [] ==> own[|own| - 1] < |before| && Passed(before, own[|own| - 1], |before|, wantReply)
    ensures OwnLevel(taken, from, own, wantReply)
    ensures |taken| > |before| ==> OwnLevel(taken, from, own + [|before|], wantReply)
  {
    hide Ends, Nests;
    forall i | 0 < i < |own| ensures Passed(taken, own[i - 1], own[i], wantReply) {
      assert Passed(before, own[i - 1], own[i], wantReply);
    }
  }

  predicate Passed(taken: seq<Incoming>, i: nat, next: nat, wantReply: bool)
    requires i < |taken|
  {
    i < next && !Ends(taken[i], wantReply) && (next > i + 1 ==> Nests(taken[i]))
  }

  /** How often a handler reads the caller's identity. */
  function Looks(handler: seq<Action>): nat {
    if handler == [] then 0 else (if handler[0].Look? then 1 else 0) + Looks(handler[1..])
  }

  class Thread {
    const ownPid: int
    const ownUid: int
    var mCallingPid: int
    var mCallingSid: int // zero stands for no security context
    var mCallingUid: int
    var mStrictModePolicy: int
    var mLastTransactionBinderFlags: int
    var mWorkSource: int
    var mPropagateWorkSource: bool
    var mServingStackPointer: nat // zero stands for NULL
    var mLastError: int
    var mIn: seq<Incoming>  // read and not yet executed
    var mOut: seq<Outgoing> // written and not yet handed to the driver

    var script: seq<seq<Incoming>> // what the driver will still deliver
    var consumed: seq<Outgoing>    // what the driver has taken
    var sightings: seq<Sighting>

    var mPendingStrongDerefs: seq<nat>
    var mPendingWeakDerefs: seq<nat>
    ghost const local: nat         // any one local object
    ghost const ack: Outgoing      // any one acknowledgement
    ghost var strongHeld: int      // references on it that are held for the driver
    ghost var weakHeld: int
    ghost var taken: seq<Incoming> // commands taken out of the in-buffer
    ghost var trace: seq<Happened>
    ghost var dropped: seq<Deref>  // decWeak and decStrong calls made for the driver

    constructor (pid: int, uid: int, script: seq<seq<Incoming>>, ghost local: nat, ghost ack: Outgoing)
      ensures Ctx() == Context(pid, 0, uid, 0, 0, UNSET_WORK_SOURCE, false, 0) && sightings == []
      ensures ownPid == pid && ownUid == uid && StrongDebt() == 0 && WeakDebt() == 0 && Acks() == 0
      ensures this.local == local && this.ack == ack && Stream() == Flat(script) && taken == []
      ensures trace == [] && Traced() && Open(trace) == Some([])
      ensures mPendingStrongDerefs == [] && mPendingWeakDerefs == []
    {
      hide StrongDebt, WeakDebt, Acks, Stream, Traced, Open;
      ownPid, ownUid := pid, uid;
      mCallingPid, mCallingSid, mCallingUid := pid, 0, uid;
      mStrictModePolicy, mLastTransactionBinderFlags := 0, 0;
      mWorkSource, mPropagateWorkSource, mServingStackPointer := UNSET_WORK_SOURCE, false, 0;
      mLastError, mIn, mOut := STATUS_OK, [], [];
      this.script, consumed, sightings := script, [], [];
      mPendingStrongDerefs, mPendingWeakDerefs := [], [];
      this.local, this.ack, strongHeld, weakHeld, taken, trace := local, ack, 0, 0, [], [];
      new;
      NothingOwed();
    }

    lemma NothingOwed()
      requires mIn == [] && mOut == [] && consumed == [] && taken == [] && trace == []
      requires strongHeld == 0 && weakHeld == 0
      requires mPendingStrongDerefs == [] && mPendingWeakDerefs == []
      ensures StrongDebt() == 0 && WeakDebt() == 0 && Acks() == 0 && Stream() == Flat(script)
      ensures Traced() && Open(trace) == Some([])
    {
      hide Sum, StrongGain, WeakGain, Is, Flat, Same, CallsFor;
      EmptySums(local, ack);
    }

    function Ctx(): Context
      reads this`mCallingPid, this`mCallingSid, this`mCallingUid, this`mStrictModePolicy
      reads this`mLastTransactionBinderFlags, this`mWorkSource, this`mPropagateWorkSource, this`mServingStackPointer
    {
      Context(mCallingPid, mCallingSid, mCallingUid, mStrictModePolicy, mLastTransactionBinderFlags,
              mWorkSource, mPropagateWorkSource, mServingStackPointer)
    }

    /** Commands and reads still to come. */
    ghost function Remaining(): nat
      reads this`mIn, this`script
    {
      |mIn| + Size(script)
    }

    /** References held on the object for the driver, less those it has taken and not given back, less those that
        wait to be dropped. */
    ghost function StrongDebt(): int
      reads this`strongHeld, this`taken, this`mPendingStrongDerefs
    {
      strongHeld - Sum(taken, StrongGain(local)) - Sum<nat>(mPendingStrongDerefs, Is(local))
    }

    ghost function WeakDebt(): int
      reads this`weakHeld, this`taken, this`mPendingWeakDerefs
    {
      weakHeld - Sum(taken, WeakGain(local)) - Sum<nat>(mPendingWeakDerefs, Is(local))
    }

    /** Acknowledgements written, less commands that call for them. */
    ghost function Acks(): int
      reads this`consumed, this`mOut, this`taken
    {
      Sum(consumed, Same(ack)) + Sum(mOut, Same(ack)) - Sum(taken, CallsFor(ack))
    }

    /** Every command that the driver delivers, in order: taken, read, and still to come. */
    ghost function Stream(): seq<Incoming>
      reads this`taken, this`mIn, this`script
    {
      taken + mIn + Flat(script)
    }

    /** Every command written so far, in order. */
    ghost function Sent(): seq<Outgoing>
      reads this`consumed, this`mOut
    {
      consumed + mOut
    }

    /** The trace is what was taken and what was written. */
    ghost predicate Traced()
      reads this`trace, this`taken, this`consumed, this`mOut
    {
      Ins(trace) == taken && Outs(trace) == Sent()
    }

    /** What a call leaves as it found it. */
    twostate predicate Kept()
      reads this
    {
      Ctx() == old(Ctx()) && KeptOthers()
    }

    /** No request is left open that was not, every call for an acknowledgement is met, and the references held are
        those asked for and not given back, or waiting. */
    twostate predicate KeptOthers()
      reads this
    {
      && Grown() && Acks() == old(Acks()) && StrongDebt() == old(StrongDebt()) && WeakDebt() == old(WeakDebt())
      && (old(Open(trace)) != None ==> Open(trace) == old(Open(trace)))
    }

    /** No command is lost or repeated, looks are honest, and no reference is dropped before the call is over. */
    twostate predicate Grown()
      reads this
    {
      && Remaining() <= old(Remaining()) && Stream() == old(Stream()) && (old(Traced()) ==> Traced())
      && old(Sent()) <= Sent() && old(taken) <= taken && old(trace) <= trace && old(sightings) <= sightings
      && (forall i :: |old(sightings)| <= i < |sightings| ==> Honest(sightings[i]))
      && old(strongHeld) <= strongHeld && old(mPendingStrongDerefs) <= mPendingStrongDerefs
      && old(weakHeld) <= weakHeld && old(mPendingWeakDerefs) <= mPendingWeakDerefs
    }

    /** The innermost open request was `tr`, and has been answered. */
    twostate predicate Closed(tr: Transaction)
      reads this`trace
    {
      var was := old(Open(trace));
      was != None && was.value != [] && was.value[|was.value| - 1] == tr ==>
        Open(trace) == Some(was.value[..|was.value| - 1])
    }

    /** A call with these flags has been written. */
    twostate predicate Called(flags: int)
      reads this`consumed, this`mOut
    {
      BcTransaction(flags) in Sent()[if |old(Sent())| <= |Sent()| then |old(Sent())| else 0..]
    }

    /** What executing a command keeps, which Fetch has already taken into account. */
    twostate predicate Repaid(cmd: Incoming)
      reads this
    {
      && Ctx() == old(Ctx()) && Grown() && Acks() == old(Acks()) + CallsFor(ack)(cmd)
      && StrongDebt() == old(StrongDebt()) + StrongGain(local)(cmd)
      && WeakDebt() == old(WeakDebt()) + WeakGain(local)(cmd)
      && if WantsReply(cmd) then Closed(cmd.tr) else old(Open(trace)) != None ==> Open(trace) == old(Open(trace))
    }

    /** How a wait ends: with the command it took last, or because the driver is closed. */
    ghost predicate Answered(err: int, wantReply: bool)
      reads this`taken, this`mIn, this`script
    {
      || (err == EBADF && mIn == [] && script == [])
      || (taken != [] && Ends(taken[|taken| - 1], wantReply) && err == Verdict(taken[|taken| - 1]))
    }

    /** talkWithDriver: the driver takes the whole out-buffer, and is read only when nothing is left to execute. */
    method TalkWithDriver(doReceive: bool) returns (err: int)
      modifies this`mIn, this`mOut, this`script, this`consumed
      ensures err == STATUS_OK || err == EBADF
      ensures Acks() == old(Acks()) && Stream() == old(Stream()) && (old(Traced()) ==> Traced())
      ensures Remaining() <= old(Remaining()) && Sent() == old(Sent())
      ensures doReceive && old(mIn) == [] ==> (err == STATUS_OK <==> old(script) != [])
      ensures doReceive && old(mIn) == [] && err == STATUS_OK ==> Remaining() < old(Remaining())
      ensures doReceive && old(mIn) != [] ==> err == STATUS_OK && mIn == old(mIn) && script == old(script)
      ensures doReceive && old(mIn) == [] && err == STATUS_OK ==> mIn == old(script)[0] && script == old(script)[1..]
      ensures !doReceive || err != STATUS_OK ==> mIn == old(mIn) && script == old(script)
      ensures !doReceive ==> err == STATUS_OK
      ensures mOut == if err == STATUS_OK && (!doReceive || old(mIn) == []) then [] else old(mOut)
    {
      hide Sum;
      assert Sum([], Same(ack)) == 0 by { EmptySums(local, ack); }
      var needRead := mIn == [];
      var write := if !doReceive || needRead then mOut else [];
      if write == [] && !(doReceive && needRead) {
        return STATUS_OK;
      }
      if doReceive && needRead && script == [] {
        return EBADF;
      }
      if write != [] {
        SumConcat(consumed, mOut, Same(ack));
        consumed := consumed + mOut;
        mOut := [];
      }
      if doReceive && needRead {
        mIn := script[0];
        script := script[1..];
      }
      err := STATUS_OK;
    }

    /** Talk to the driver and take the next command out of the in-buffer, if there is one. */
    method Fetch() returns (err: int, got: bool, cmd: Incoming)
      modifies this`mIn, this`mOut, this`script, this`consumed, this`taken, this`trace
      ensures err == STATUS_OK || (err == EBADF && !got && mIn == [] && script == [])
      ensures Stream() == old(Stream()) && (old(Traced()) ==> Traced())
      ensures trace == (if got then old(trace) + [Got(cmd)] else old(trace))
      ensures Open(trace) == if got then Next(old(Open(trace)), Got(cmd)) else old(Open(trace))
      ensures Remaining() <= old(Remaining()) && Sent() == old(Sent())
      ensures err == STATUS_OK ==> Remaining() < old(Remaining())
      ensures taken == if got then old(taken) + [cmd] else old(taken)
      ensures got ==> [cmd] + mIn == if old(mIn) != [] then old(mIn) else old(script)[0]
      ensures err == STATUS_OK && !got ==> mIn == [] && old(mIn) == []
      ensures Acks() == old(Acks()) - (if got then CallsFor(ack)(cmd) else 0)
      ensures StrongDebt() == old(StrongDebt()) - (if got then StrongGain(local)(cmd) else 0)
      ensures WeakDebt() == old(WeakDebt()) - (if got then WeakGain(local)(cmd) else 0)
    {
      hide Size, Flat, Sum, CallsFor, StrongGain, WeakGain, Open, Ins, Outs;
      got, cmd := false, Noop;
      err := TalkWithDriver(true);
      if err >= STATUS_OK && mIn != [] {
        got, cmd := true, mIn[0];
        TraceAppend(trace, Got(cmd));
        SumAppend(taken, cmd, CallsFor(ack));
        SumAppend(taken, cmd, StrongGain(local));
        SumAppend(taken, cmd, WeakGain(local));
        assert taken + mIn + Flat(script) == (taken + [cmd]) + mIn[1..] + Flat(script);
        mIn := mIn[1..];
        taken, trace := taken + [cmd], trace + [Got(cmd)];
      }
    }

    /** waitForResponse: execute whatever arrives until the call is answered. `own` are the commands it took itself:
        its result is that of the first one that ends the wait. */
    method WaitForResponse(wantReply: bool) returns (err: int, ghost own: seq<nat>)
      modifies this
      ensures Kept() && Answered(err, wantReply) && (err != STATUS_OK ==> mLastError == err)
      ensures OwnLevel(taken, |old(taken)|, own, wantReply)
      ensures (own == [] ==> |taken| == |old(taken)|)
           && (own != [] && Ends(taken[own[|own| - 1]], wantReply) ==> own[|own| - 1] == |taken| - 1)
      decreases Remaining(), 2
    {
      hide Sum, Honest, Remaining, StrongDebt, WeakDebt, Stream, Acks, Sent, Ctx, Open, Traced, Ends, Verdict, Nests;
      hide OwnLevel;
      err, own := STATUS_OK, [];
      NoneTaken(taken, wantReply);
      while true
        invariant Kept()
        invariant OwnLevel(taken, |old(taken)|, own, wantReply) && (own == [] ==> |taken| == |old(taken)|)
        invariant own != [] ==>
                    own[|own| - 1] < |taken| && Passed(taken, own[|own| - 1], |taken|, wantReply)
        decreases Remaining()
      {
        ghost var before := taken;
        var done;
        err, done := Respond(wantReply);
        OwnExtends(before, taken, |old(taken)|, own, wantReply);
        if |taken| > |before| { own := own + [|before|]; }
        if done { break; }
      }
      if err != STATUS_OK {
        mLastError := err;
      }
    }

    /** One round of waitForResponse's loop. */
    method Respond(wantReply: bool) returns (err: int, done: bool)
      modifies this
      ensures Kept() && (!done ==> Remaining() < old(Remaining()))
      ensures |taken| == |old(taken)| ==> (done <==> err == EBADF) && (done ==> mIn == [] && script == [])
      ensures |taken| > |old(taken)| ==>
                var cmd := taken[|old(taken)|];
                && (done <==> Ends(cmd, wantReply)) && (done ==> err == Verdict(cmd))
                && (|taken| > |old(taken)| + 1 ==> !done && Nests(cmd))
      decreases Remaining(), 1
    {
      hide Sum, Honest, Remaining, StrongDebt, WeakDebt, Stream, Acks, Sent, Ends, Verdict, Nests;
      hide StrongGain, WeakGain, CallsFor, Open, Traced;
      var got, cmd;
      err, got, cmd := Fetch();
      if err < STATUS_OK {
        return err, true;
      }
      if !got {
        return err, false;
      }
      err, done := TakeOrExecute(cmd, wantReply);
    }

    /** Take a command for an answer or execute it. */
    method TakeOrExecute(cmd: Incoming, wantReply: bool) returns (err: int, done: bool)
      modifies this
      ensures Repaid(cmd) && (done <==> Ends(cmd, wantReply)) && (done ==> err == Verdict(cmd))
      ensures |taken| > |old(taken)| ==> !done && Nests(cmd)
      decreases Remaining(), 9
    {
      hide Sum, Honest, Remaining, StrongDebt, WeakDebt, Stream, Acks, Sent;
      hide StrongGain, WeakGain, CallsFor, Open, Traced;
      GainsNothing(cmd, local, ack);
      err, done := STATUS_OK, true;
      match cmd {
        case TransactionComplete =>
          done := !wantReply;
        case DeadReply =>
          err := STATUS_DEAD_OBJECT;
        case FailedReply =>
          err := STATUS_FAILED_TRANSACTION;
        case Reply(status) =>
          if wantReply {
            err := status;
          } else {
            done := false;
          }
        case _ =>
          err := ExecuteCommand(cmd);
          done := err != STATUS_OK;
      }
    }

    /** transact: write the command, then wait; a one-way call waits for its acknowledgement only. */
    method Transact(flags: int, dataError: int) returns (err: int)
      modifies this
      ensures Kept()
      ensures err != STATUS_OK ==> mLastError == err
      ensures dataError != STATUS_OK ==> err == dataError && Sent() == old(Sent()) && mIn == old(mIn)
      ensures dataError == STATUS_OK ==> old(Sent()) + [BcTransaction(flags)] <= Sent() && Answered(err, !OneWay(flags))
      ensures dataError == STATUS_OK ==> Called(flags)
      decreases Remaining(), 3
    {
      hide Next, Same, Sum, Honest, Remaining, StrongDebt, WeakDebt, Stream, Acks, OneWay, Open, Traced;
      if dataError != STATUS_OK {
        mLastError := dataError;
        return dataError;
      }
      Put(BcTransaction(flags));
      ghost var own;
      ghost var at := |Sent()| - 1;
      err, own := WaitForResponse(!OneWay(flags));
      assert Sent()[at] == BcTransaction(flags);
    }

    /** Write a command into the out-buffer. */
    method Put(c: Outgoing)
      modifies this`mOut, this`trace
      ensures Sent() == old(Sent()) + [c] && mOut == old(mOut) + [c]
      ensures Acks() == old(Acks()) + Bit(IsAck(c) && c == ack)
      ensures trace == old(trace) + [Wrote(c)] && Open(trace) == Next(old(Open(trace)), Wrote(c))
      ensures (!c.BcReply? ==> Open(trace) == old(Open(trace))) && (old(Traced()) ==> Traced())
    {
      hide Sum, Open, Ins, Outs;
      SumAppend(mOut, c, Same(ack));
      TraceAppend(trace, Wrote(c));
      mOut, trace := mOut + [c], trace + [Wrote(c)];
    }

    /** sendReply: write the reply, then wait for its acknowledgement, serving others meanwhile. */
    method SendReply(status: int) returns (err: int)
      modifies this
      ensures Ctx() == old(Ctx()) && Grown() && Answered(err, false)
      ensures Acks() == old(Acks()) && StrongDebt() == old(StrongDebt()) && WeakDebt() == old(WeakDebt())
      ensures old(Sent()) + [BcReply(status)] <= Sent()
      ensures forall tr :: status == ReplyOf(tr) ==> Closed(tr)
      decreases Remaining(), 3
    {
      hide Sum, Honest, Remaining, StrongDebt, WeakDebt, Stream, Acks, OneWay, Open, Traced;
      Put(BcReply(status));
      ghost var own;
      err, own := WaitForResponse(false);
    }

    /** A target's code: it may do anything a handler can do, any number of times, and sees `tr`'s sender (or
        itself, once it asked for that) every time it looks. */
    method RunHandler(tr: Transaction)
      requires mCallingPid == tr.pid && mCallingSid == SECCTX_TMP && mCallingUid == tr.uid
      modifies this
      ensures KeptOthers() && mServingStackPointer == old(mServingStackPointer)
      ensures |sightings| >= |old(sightings)| + Looks(tr.handler)
      ensures forall i :: 0 <= i < |tr.handler| && tr.handler[i].Call? && tr.handler[i].dataError == STATUS_OK ==>
                Called(tr.handler[i].flags)
      decreases Remaining(), 5
    {
      hide Sum, Honest, Remaining, StrongDebt, WeakDebt, Stream, Acks, Sent, Open, Traced, OneWay;
      assert tr.handler[0..] == tr.handler;
      var i := 0;
      var pid, sid, uid := tr.pid, SECCTX_TMP, tr.uid;
      while i < |tr.handler|
        decreases |tr.handler| - i
        invariant 0 <= i <= |tr.handler|
        invariant KeptOthers() && mServingStackPointer == old(mServingStackPointer)
        invariant |sightings| + Looks(tr.handler[i..]) >= |old(sightings)| + Looks(tr.handler)
        invariant mCallingPid == pid && mCallingSid == sid && mCallingUid == uid
        invariant forall k :: 0 <= k < i && tr.handler[k].Call? && tr.handler[k].dataError == STATUS_OK ==>
                    Called(tr.handler[k].flags)
      {
        assert tr.handler[i..][1..] == tr.handler[i + 1..];
        pid, sid, uid := Act(tr.handler[i], pid, sid, uid);
        i := i + 1;
      }
    }

    /** One action of a handler; the identity it should see from then on. */
    method Act(action: Action, pid: int, sid: int, uid: int) returns (pid': int, sid': int, uid': int)
      requires mCallingPid == pid && mCallingSid == sid && mCallingUid == uid
      modifies this
      ensures KeptOthers() && mServingStackPointer == old(mServingStackPointer)
      ensures |sightings| >= |old(sightings)| + (if action.Look? then 1 else 0)
      ensures if action.ClearCaller? then pid' == ownPid && sid' == 0 && uid' == ownUid
              else pid' == pid && sid' == sid && uid' == uid
      ensures mCallingPid == pid' && mCallingSid == sid' && mCallingUid == uid'
      ensures match action
              case Call(flags, dataError) => dataError == STATUS_OK ==> Called(flags)
              case SetStrictMode(policy) => mStrictModePolicy == policy
              case SetWorkSource(source, propagate) =>
                mWorkSource == source && mPropagateWorkSource == (propagate || old(mPropagateWorkSource))
              case SetFlags(flags) => mLastTransactionBinderFlags == flags
              case _ => true
      decreases Remaining(), 4
    {
      hide Sum, Remaining, StrongDebt, WeakDebt, Stream, Acks, Sent, Open, Traced, OneWay;
      pid', sid', uid' := pid, sid, uid;
      match action {
        case Look =>
          sightings := sightings + [Sighting(mCallingPid, mCallingSid, mCallingUid, pid, sid, uid)];
        case Call(flags, dataError) =>
          var _ := Transact(flags, dataError);
        case SetStrictMode(policy) =>
          mStrictModePolicy := policy;
        case SetWorkSource(source, propagate) =>
          mWorkSource := source;
          if propagate { mPropagateWorkSource := true; }
        case SetFlags(flags) =>
          mLastTransactionBinderFlags := flags;
        case ClearCaller =>
          mCallingPid, mCallingSid, mCallingUid := ownPid, 0, ownUid;
          pid', sid', uid' := ownPid, 0, ownUid;
      }
    }

    /** executeCommand on BR_TRANSACTION: save the identity, take the sender's, run the target, reply, restore. */
    method ServeTransaction(tr: Transaction)
      modifies this
      ensures Repaid(BrTransaction(tr))
      ensures tr.targetAlive ==> |sightings| >= |old(sightings)| + Looks(tr.handler)
      ensures !OneWay(tr.flags) ==> BcReply(ReplyOf(tr)) in Sent()[|old(Sent())|..]
      decreases Remaining(), 7
    {
      hide Sum, Honest, Remaining, StrongDebt, WeakDebt, Stream, Acks, Sent, Open, Traced, OneWay, ReplyOf;
      hide StrongGain, WeakGain, CallsFor;
      GainsNothing(BrTransaction(tr), local, ack);
      var orig := Ctx();
      Adopt(tr);
      RunAndReply(tr);
      Restore(orig);
    }

    method Adopt(tr: Transaction)
      modifies this`mCallingPid, this`mCallingSid, this`mCallingUid, this`mStrictModePolicy
      modifies this`mLastTransactionBinderFlags, this`mWorkSource, this`mPropagateWorkSource, this`mServingStackPointer
      ensures mCallingPid == tr.pid && mCallingSid == SECCTX_TMP && mCallingUid == tr.uid
      ensures mLastTransactionBinderFlags == tr.flags && mStrictModePolicy == old(mStrictModePolicy)
      ensures mWorkSource == UNSET_WORK_SOURCE && !mPropagateWorkSource && mServingStackPointer > 0
    {
      mServingStackPointer := mServingStackPointer + 1;
      mWorkSource, mPropagateWorkSource := UNSET_WORK_SOURCE, true; // clearCallingWorkSource
      mPropagateWorkSource := false;                                // clearPropagateWorkSource
      mCallingPid, mCallingSid, mCallingUid := tr.pid, SECCTX_TMP, tr.uid;
      mLastTransactionBinderFlags := tr.flags;
    }

    method Restore(orig: Context)
      modifies this`mCallingPid, this`mCallingSid, this`mCallingUid, this`mStrictModePolicy
      modifies this`mLastTransactionBinderFlags, this`mWorkSource, this`mPropagateWorkSource, this`mServingStackPointer
      ensures Ctx() == orig
    {
      mServingStackPointer := orig.serving;
      mCallingPid, mCallingSid, mCallingUid := orig.pid, orig.sid, orig.uid;
      mStrictModePolicy := orig.strictMode;
      mLastTransactionBinderFlags := orig.flags;
      mWorkSource, mPropagateWorkSource := orig.workSource, orig.propagate;
    }

    /** The part of BR_TRANSACTION that runs as the sender. */
    method RunAndReply(tr: Transaction)
      requires mCallingPid == tr.pid && mCallingSid == SECCTX_TMP && mCallingUid == tr.uid
      modifies this
      ensures Grown()
      ensures Acks() == old(Acks()) && StrongDebt() == old(StrongDebt()) && WeakDebt() == old(WeakDebt())
      ensures if OneWay(tr.flags) then old(Open(trace)) != None ==> Open(trace) == old(Open(trace)) else Closed(tr)
      ensures tr.targetAlive ==> |sightings| >= |old(sightings)| + Looks(tr.handler)
      ensures !OneWay(tr.flags) ==> BcReply(ReplyOf(tr)) in Sent()[|old(Sent())|..]
      decreases Remaining(), 6
    {
      hide Sum, Honest, Remaining, StrongDebt, WeakDebt, Stream, Acks, Open, Traced, OneWay;
      var error := STATUS_UNKNOWN_TRANSACTION;
      if tr.targetAlive {
        RunHandler(tr);
        error := tr.result;
      }
      if !OneWay(tr.flags) {
        ghost var before := Sent();
        var _ := SendReply(if error < STATUS_OK then error else STATUS_OK);
        assert Sent()[|before|] == BcReply(ReplyOf(tr));
      }
    }

    /** executeCommand on BR_DEAD_BINDER: tell the recipients, then acknowledge. */
    method ServeDeath(calls: seq<(int, int)>)
      modifies this
      ensures Repaid(DeadBinder(calls)) && Sent() != [] && Sent()[|Sent()| - 1] == BcDeadBinderDone
      ensures forall i :: 0 <= i < |calls| && calls[i].1 == STATUS_OK ==> Called(calls[i].0)
      decreases Remaining(), 6
    {
      hide Next, Same, Sum, Honest, Remaining, StrongDebt, WeakDebt, Stream, Acks, Open, Traced, StrongGain, WeakGain;
      GainsNothing(DeadBinder(calls), local, ack);
      var i := 0;
      while i < |calls|
        decreases |calls| - i
        invariant 0 <= i <= |calls| && Kept()
        invariant forall k :: 0 <= k < i && calls[k].1 == STATUS_OK ==> Called(calls[k].0)
      {
        var _ := Transact(calls[i].0, calls[i].1);
        i := i + 1;
      }
      ghost var before := Sent();
      Put(BcDeadBinderDone);
      assert Sent()[|old(Sent())|..] == before[|old(Sent())|..] + [BcDeadBinderDone];
    }

    /** executeCommand on the driver's reference commands: increments happen and are acknowledged at once, decrements
        wait for ProcessPendingDerefs. */
    method ExecuteRefs(cmd: Incoming)
      requires ForRefs(cmd)
      modifies this`strongHeld, this`weakHeld, this`mOut, this`mPendingStrongDerefs, this`mPendingWeakDerefs
      modifies this`trace
      ensures old(Sent()) <= Sent() && old(trace) <= trace && (old(Traced()) ==> Traced())
      ensures Open(trace) == old(Open(trace)) && Acks() == old(Acks()) + CallsFor(ack)(cmd)
      ensures StrongDebt() == old(StrongDebt()) + StrongGain(local)(cmd)
      ensures WeakDebt() == old(WeakDebt()) + WeakGain(local)(cmd)
      ensures old(strongHeld) <= strongHeld && old(mPendingStrongDerefs) <= mPendingStrongDerefs
      ensures old(weakHeld) <= weakHeld && old(mPendingWeakDerefs) <= mPendingWeakDerefs
    {
      hide Next, Same, Sum, Remaining, Stream, Open, Traced, Acks;
      match cmd {
        case Acquire(obj) =>
          strongHeld := strongHeld + Bit(obj == local);
          Put(BcAcquireDone(obj));
        case Release(obj) =>
          SumAppend(mPendingStrongDerefs, obj, Is(local));
          mPendingStrongDerefs := mPendingStrongDerefs + [obj];
        case IncRefs(obj) =>
          weakHeld := weakHeld + Bit(obj == local);
          Put(BcIncRefsDone(obj));
        case DecRefs(obj) =>
          SumAppend(mPendingWeakDerefs, obj, Is(local));
          mPendingWeakDerefs := mPendingWeakDerefs + [obj];
      }
    }

    /** executeCommand. What the command takes out of the accounts it pays back. */
    method ExecuteCommand(cmd: Incoming) returns (result: int)
      modifies this
      ensures Repaid(cmd)
      ensures !Nests(cmd) ==> taken == old(taken) && mIn == old(mIn) && script == old(script)
      ensures WantsReply(cmd) ==> BcReply(ReplyOf(cmd.tr)) in Sent()[|old(Sent())|..]
      ensures cmd.DeadBinder? ==> Sent() != [] && Sent()[|Sent()| - 1] == BcDeadBinderDone
      ensures result == TopVerdict(cmd)
      ensures result != STATUS_OK ==> mLastError == result && !Nests(cmd)
      ensures result != STATUS_OK ==>
                mPendingStrongDerefs == old(mPendingStrongDerefs) && mPendingWeakDerefs == old(mPendingWeakDerefs)
      decreases Remaining(), 8
    {
      hide Sum, Honest, Remaining, StrongDebt, WeakDebt, Stream, Acks, Sent, Ctx, OneWay;
      hide StrongGain, WeakGain, CallsFor, Open, Traced;
      GainsNothing(cmd, local, ack);
      result := STATUS_OK;
      match cmd {
        case Error(code) => result := code;
        case BrTransaction(tr) => ServeTransaction(tr);
        case DeadBinder(calls) => ServeDeath(calls);
        case Noop =>
        case Finished => result := STATUS_TIMED_OUT;
        case Acquire(_) | Release(_) | IncRefs(_) | DecRefs(_) => ExecuteRefs(cmd);
        case _ => result := STATUS_UNKNOWN_TRANSACTION;
      }
      if result != STATUS_OK { mLastError := result; }
    }

    /** getAndExecuteCommand, the body of the looper. */
    method GetAndExecuteCommand() returns (result: int)
      modifies this
      ensures Kept() && (result != EBADF ==> Remaining() < old(Remaining()))
      ensures |taken| == |old(taken)| ==> result == STATUS_OK || result == EBADF
      ensures result < STATUS_OK && |taken| > |old(taken)| ==>
                |taken| == |old(taken)| + 1 && result == TopVerdict(taken[|old(taken)|])
      ensures result != STATUS_OK ==>
                mPendingStrongDerefs == old(mPendingStrongDerefs) && mPendingWeakDerefs == old(mPendingWeakDerefs)
    {
      hide Sum, Honest, Remaining, StrongDebt, WeakDebt, Stream, Acks, Sent, Ctx, Open, Traced, OneWay;
      hide StrongGain, WeakGain, CallsFor;
      var got, cmd;
      result, got, cmd := Fetch();
      if got {
        result := ExecuteCommand(cmd);
      }
    }

    /** processPendingDerefs: all weak ones before each strong one. */
    method ProcessPendingDerefs()
      modifies this`mPendingStrongDerefs, this`mPendingWeakDerefs, this`strongHeld, this`weakHeld, this`dropped
      ensures mPendingStrongDerefs == [] && mPendingWeakDerefs == []
      ensures dropped == Drops(old(dropped), old(mPendingWeakDerefs), old(mPendingStrongDerefs))
      ensures StrongDebt() == old(StrongDebt()) && WeakDebt() == old(WeakDebt())
    {
      hide Is, StrongGain, WeakGain, Drops;
      while mPendingWeakDerefs != [] || mPendingStrongDerefs != []
        invariant StrongDebt() == old(StrongDebt()) && WeakDebt() == old(WeakDebt())
        invariant Drops(dropped, mPendingWeakDerefs, mPendingStrongDerefs)
               == Drops(old(dropped), old(mPendingWeakDerefs), old(mPendingStrongDerefs))
        decreases |mPendingWeakDerefs| + |mPendingStrongDerefs|
      {
        ghost var before, strongs, held := |mPendingWeakDerefs|, mPendingStrongDerefs, strongHeld;
        while mPendingWeakDerefs != []
          invariant |mPendingWeakDerefs| <= before && WeakDebt() == old(WeakDebt())
          invariant mPendingStrongDerefs == strongs && strongHeld == held
          invariant Drops(dropped, mPendingWeakDerefs, strongs)
                 == Drops(old(dropped), old(mPendingWeakDerefs), old(mPendingStrongDerefs))
          decreases |mPendingWeakDerefs|
        {
          weakHeld := weakHeld - Is(local)(mPendingWeakDerefs[0]);
          DropNext(dropped, mPendingWeakDerefs, strongs);
          dropped := dropped + [DecWeak(mPendingWeakDerefs[0])];
          mPendingWeakDerefs := mPendingWeakDerefs[1..];
        }
        if mPendingStrongDerefs != [] {
          strongHeld := strongHeld - Is(local)(mPendingStrongDerefs[0]);
          DropNext(dropped, [], mPendingStrongDerefs);
          dropped := dropped + [DecStrong(mPendingStrongDerefs[0])];
          mPendingStrongDerefs := mPendingStrongDerefs[1..];
        }
      }
      DropNext(dropped, [], []);
    }

    /** What a thread keeps between the commands it serves. */
    twostate predicate KeptServing()
      reads this
    {
      && Ctx() == old(Ctx()) && Acks() == old(Acks()) && Stream() == old(Stream())
      && (old(Traced()) ==> Traced()) && (old(Open(trace)) != None ==> Open(trace) == old(Open(trace)))
      && old(sightings) <= sightings && old(taken) <= taken
      && (forall i :: |old(sightings)| <= i < |sightings| ==> Honest(sightings[i]))
      && StrongDebt() == old(StrongDebt()) && WeakDebt() == old(WeakDebt())
    }

    /** joinThreadPool: serve until the driver is closed or the thread is no longer needed; abort on another error.
        A thread that leaves has nothing left to drop or to send. */
    method JoinThreadPool(isMain: bool) returns (aborted: bool, result: int)
      modifies this
      ensures KeptServing()
      ensures aborted ==> taken != [] && result == TopVerdict(taken[|taken| - 1]) && IsFatal(result)
      ensures !aborted ==>
                && mPendingStrongDerefs == [] && mPendingWeakDerefs == []
                && mOut == [] && consumed != [] && consumed[|consumed| - 1] == BcExitLooper
                && ((result == STATUS_TIMED_OUT && !isMain) || result == ECONNREFUSED || result == EBADF)
    {
      hide Sum, Honest, Remaining, StrongDebt, WeakDebt, Stream, Acks, Ctx, Open, Traced, Next, Same;
      hide TopVerdict, IsFatal;
      Put(BcEnterLooper(isMain));
      aborted, result := ServeWhile(isMain);
      if !aborted { Leave(); }
    }

    /** The loop of joinThreadPool. */
    method ServeWhile(isMain: bool) returns (aborted: bool, result: int)
      modifies this
      ensures KeptServing()
      ensures aborted ==> taken != [] && result == TopVerdict(taken[|taken| - 1]) && IsFatal(result)
      ensures !aborted ==>
                && mPendingStrongDerefs == [] && mPendingWeakDerefs == []
                && ((result == STATUS_TIMED_OUT && !isMain) || result == ECONNREFUSED || result == EBADF)
    {
      hide Sum, Honest, Remaining, StrongDebt, WeakDebt, Stream, Acks, Ctx, Open, Traced, TopVerdict, IsFatal;
      while true
        invariant KeptServing()
        decreases Remaining()
      {
        result := ServeOne();
        if IsFatal(result) {
          return true, result;
        }
        if (result == STATUS_TIMED_OUT && !isMain) || result == ECONNREFUSED || result == EBADF {
          return false, result;
        }
      }
    }

    /** The end of joinThreadPool: say so, and hand over what is left. */
    method Leave()
      modifies this`mIn, this`mOut, this`script, this`consumed, this`trace
      ensures KeptServing() && mOut == [] && consumed != [] && consumed[|consumed| - 1] == BcExitLooper
    {
      hide Sum, Honest, Remaining, StrongDebt, WeakDebt, Stream, Acks, Ctx, Open, Traced, Next, Same;
      Put(BcExitLooper);
      assert Sent()[|Sent()| - 1] == BcExitLooper;
      var _ := TalkWithDriver(false);
    }

    /** One turn of the looper. */
    method ServeOne() returns (result: int)
      modifies this
      ensures KeptServing() && (result != EBADF ==> Remaining() < old(Remaining()))
      ensures IsFatal(result) ==> taken != [] && result == TopVerdict(taken[|taken| - 1])
      ensures result != STATUS_OK ==> mPendingStrongDerefs == [] && mPendingWeakDerefs == []
    {
      hide Sum, Honest, Remaining, StrongDebt, WeakDebt, Stream, Acks, Ctx, Open, Traced, TopVerdict;
      ProcessPendingDerefs();
      result := GetAndExecuteCommand();
    }
  }

  /** A result on which the loop aborts. */
  predicate IsFatal(result: int) {
    result < STATUS_OK && result != STATUS_TIMED_OUT && result != ECONNREFUSED && result != EBADF
  }

  /** The life of a pool thread, whatever the driver delivers and whatever its handlers do: every reply answered the
      innermost open request with what that is to be told, and none is left open; every call for an acknowledgement
      was met by it; handlers saw their own senders only; no command was lost or repeated; and at the end the
      references held for the driver are those asked for and not given back. */
  method Serve(pid: int, uid: int, script: seq<seq<Incoming>>, isMain: bool, ghost local: nat, ghost ack: Outgoing)
    returns (aborted: bool, sent: seq<Outgoing>, sightings: seq<Sighting>, ghost trace: seq<Happened>,
             ghost left: seq<Incoming>, ghost held: int, ghost weak: int)
    ensures Outs(trace) == sent && Ins(trace) + left == Flat(script) && Open(trace) == Some([])
    ensures forall v :: Sum(sent, Replies(v)) == Sum(Ins(trace), Requests(v))
    ensures Sum(sent, Same(ack)) == Sum(Ins(trace), CallsFor(ack))
    ensures forall i :: 0 <= i < |sightings| ==> Honest(sightings[i])
    ensures aborted ==> Ins(trace) != [] && IsFatal(TopVerdict(Ins(trace)[|Ins(trace)| - 1]))
    ensures !aborted ==> held == Sum(Ins(trace), StrongGain(local)) && weak == Sum(Ins(trace), WeakGain(local))
  {
    hide Sum, Honest, Flat, StrongGain, WeakGain, Is, Same, CallsFor, Open, Ins, Outs;
    var t := new Thread(pid, uid, script, local, ack);
    var result;
    aborted, result := t.JoinThreadPool(isMain);
    EmptySums(local, ack);
    SumConcat(t.consumed, t.mOut, Same(ack));
    sent, sightings := t.consumed + t.mOut, t.sightings;
    trace, left, held, weak := t.trace, t.mIn + Flat(t.script), t.strongHeld, t.weakHeld;
    assert Ins(trace) + left == t.Stream();
    forall v ensures Sum(sent, Replies(v)) == Sum(Ins(trace), Requests(v)) {
      EveryRequestAnswered(trace, v);
      NothingHappened(v);
    }
  }

  /** Commands that only a waiting call understands. */
  predicate AnswerOnly(cmd: Incoming) {
    cmd.TransactionComplete? || cmd.DeadReply? || cmd.FailedReply? || cmd.Reply?
  }

  /** What a command makes a looping thread return. */
  function TopVerdict(cmd: Incoming): int { if AnswerOnly(cmd) then STATUS_UNKNOWN_TRANSACTION else Verdict(cmd) }

  lemma EmptySums(local: nat, ack: Outgoing)
    ensures Sum([], Same(ack)) == 0 && Sum([], CallsFor(ack)) == 0
    ensures Sum([], StrongGain(local)) == 0 && Sum([], WeakGain(local)) == 0 && Sum<nat>([], Is(local)) == 0
  {
  }
}
