/** The reference commands that pool threads write for one remote proxy, and the temporary references that keep the
    proxy while a command waits in a thread's buffer (IPCThreadState.c, BpBinder.c), as a machine.

    Any number of looper threads share the proxy. Every change of the strong count, every command written, every buffer
    handed to the driver and every temporary reference dropped is one step of one thread; between the count change that
    causes onFirstRef or onLastStrongRef and the command that the callback writes, other threads may run. */
module PostWriteDerefs {
  import opened Sums

  datatype Command = Acquire | Release | IncRefs | Other

  /** Between calls, or inside onFirstRef or onLastStrongRef before the command is written. */
  datatype Pc = Ready | OwesAcquire | OwesRelease

  /** A thread: its out-buffer as far as it concerns the proxy (`Other` stands for every other command), how often the
      proxy is in its two post-write vectors, and how many of their references it has still to drop. */
  datatype Looper = Looper(pc: Pc, out: seq<Command>, strongDerefs: nat, weakDerefs: nat,
                           dropping: nat, droppingWeak: nat)

  datatype State = State(
    strong: nat,           // the proxy's strong count without the bias
    weakTemps: nat,        // weak references taken by incWeakHandle and not yet dropped
    held: nat,             // strong references held by clients
    loopers: seq<Looper>,
    driver: seq<Command>)  // what the driver has consumed

  datatype Event =
    | Spawn
    | Take(t: nat)         // incStrong or forceIncStrong: the count
    | WriteAcquire(t: nat) // incStrongHandle: the command, the temporary reference, the vector
    | Drop(t: nat)         // decStrong: the count
    | WriteRelease(t: nat) // decStrongHandle
    | NewProxy(t: nat)     // incWeakHandle, from the constructor
    | WriteOther(t: nat)
    | Flush(t: nat)        // talkWithDriver: the driver takes the whole buffer
    | DropWeakTemp(t: nat) // one turn of processPostWriteDerefs' first loop
    | DropTemp(t: nat)     // one turn of its second loop

  function Init(): State { State(0, 0, 0, [], []) }

  // ---------------------------------------------------------------- the steps

  predicate Enabled(s: State, e: Event) {
    match e
    case Spawn => true
    case WriteAcquire(t) => t < |s.loopers| && s.loopers[t].pc == OwesAcquire
    case WriteRelease(t) => t < |s.loopers| && s.loopers[t].pc == OwesRelease
    case Drop(t) => t < |s.loopers| && s.loopers[t].pc == Ready && s.held > 0
    case Flush(t) =>
      t < |s.loopers| && s.loopers[t].pc == Ready && s.loopers[t].dropping == s.loopers[t].droppingWeak == 0
    case DropWeakTemp(t) => t < |s.loopers| && s.loopers[t].pc == Ready && s.loopers[t].droppingWeak > 0
    case DropTemp(t) =>
      t < |s.loopers| && s.loopers[t].pc == Ready && s.loopers[t].droppingWeak == 0 < s.loopers[t].dropping
    case _ => e.t < |s.loopers| && s.loopers[e.t].pc == Ready
  }

  /** The shared counts and the driver after a step of a thread `l`, and the thread after it. */
  function Effect(s: State, l: Looper, e: Event): (State, Looper)
    requires e != Spawn
  {
    match e
    case Take(_) =>
      if s.strong == 0 then (s.(strong := 1), l.(pc := OwesAcquire))
      else (s.(strong := s.strong + 1, held := s.held + 1), l)
    case WriteAcquire(_) =>
      (s.(strong := s.strong + 1, held := s.held + 1),
       l.(pc := Ready, out := l.out + [Acquire], strongDerefs := l.strongDerefs + 1))
    case Drop(_) =>
      (s.(strong := Less(s.strong), held := Less(s.held)), if s.strong == 1 then l.(pc := OwesRelease) else l)
    case WriteRelease(_) => (s, l.(pc := Ready, out := l.out + [Release]))
    case NewProxy(_) =>
      (s.(weakTemps := s.weakTemps + 1), l.(out := l.out + [IncRefs], weakDerefs := l.weakDerefs + 1))
    case WriteOther(_) => (s, l.(out := l.out + [Other]))
    case Flush(_) =>
      (s.(driver := s.driver + l.out), Looper(l.pc, [], 0, 0, l.strongDerefs, l.weakDerefs))
    case DropWeakTemp(_) => (s.(weakTemps := Less(s.weakTemps)), l.(droppingWeak := Less(l.droppingWeak)))
    case DropTemp(_) =>
      var l' := l.(dropping := Less(l.dropping));
      (s.(strong := Less(s.strong)), if s.strong == 1 then l'.(pc := OwesRelease) else l')
  }

  function Less(n: nat): nat { if n == 0 then 0 else n - 1 }

  function Step(s: State, e: Event): State
    requires Enabled(s, e)
  {
    match e
    case Spawn => s.(loopers := s.loopers + [Looper(Ready, [], 0, 0, 0, 0)])
    case _ => var (s', l) := Effect(s, s.loopers[e.t], e); s'.(loopers := s.loopers[e.t := l])
  }

  /** `run` is a schedule that can be followed from `s`. */
  predicate IsRun(s: State, run: seq<Event>)
    decreases run
  {
    run == [] || (Enabled(s, run[0]) && IsRun(Step(s, run[0]), run[1..]))
  }

  /** The state that a run leads to. */
  function After(s: State, run: seq<Event>): State
    requires IsRun(s, run)
    decreases run
  {
    if run == [] then s else After(Step(s, run[0]), run[1..])
  }

  lemma {:induction false} RunConcat(s: State, a: seq<Event>, b: seq<Event>)
    requires IsRun(s, a) && IsRun(After(s, a), b)
    ensures IsRun(s, a + b) && After(s, a + b) == After(After(s, a), b)
    decreases a
  {
    hide Enabled, Step;
    if a == [] {
      assert a + b == b;
    } else {
      assert (a + b)[1..] == a[1..] + b;
      RunConcat(Step(s, a[0]), a[1..], b);
    }
  }

  // ---------------------------------------------------------------- what a thread owns

  function Count(cmds: seq<Command>, c: Command): nat {
    if cmds == [] then 0 else (if cmds[0] == c then 1 else 0) + Count(cmds[1..], c)
  }

  lemma CountConcat(a: seq<Command>, b: seq<Command>, c: Command)
    ensures Count(a + b, c) == Count(a, c) + Count(b, c)
  {
    if a == [] {
      assert a + b == b;
    } else {
      assert (a + b)[1..] == a[1..] + b;
      CountConcat(a[1..], b, c);
    }
  }

  lemma CountPrefix(a: seq<Command>, k: nat, c: Command)
    requires k <= |a|
    ensures Count(a[..k], c) <= Count(a, c)
  {
    assert a == a[..k] + a[k..];
    CountConcat(a[..k], a[k..], c);
  }

  function WaitingAcquires(l: Looper): int { Count(l.out, Acquire) }
  function WaitingReleases(l: Looper): int { Count(l.out, Release) }
  function OwedAcquires(l: Looper): int { Bit(l.pc == OwesAcquire) }
  function OwedReleases(l: Looper): int { Bit(l.pc == OwesRelease) }
  function Dropping(l: Looper): int { l.dropping }
  function WeakTempsOf(l: Looper): int { l.weakDerefs + l.droppingWeak }

  /** In no buffer does a release wait behind an acquire. */
  predicate Ordered(cmds: seq<Command>) {
    forall i, j :: 0 <= i < j < |cmds| && cmds[i] == Acquire ==> cmds[j] != Release
  }

  /** The driver is never asked to release what it was not asked to acquire. */
  predicate NeverOverReleased(cmds: seq<Command>) {
    forall k :: 0 <= k <= |cmds| ==> Count(cmds[..k], Release) <= Count(cmds[..k], Acquire)
  }

  // ---------------------------------------------------------------- the invariant

  datatype Totals = Totals(acq: int, rel: int, owedAcq: int, owedRel: int, dropping: int, weak: int)

  function TotalsOf(ls: seq<Looper>): Totals {
    Totals(Sum(ls, WaitingAcquires), Sum(ls, WaitingReleases), Sum(ls, OwedAcquires), Sum(ls, OwedReleases),
           Sum(ls, Dropping), Sum(ls, WeakTempsOf))
  }

  function Own(l: Looper): Totals {
    Totals(WaitingAcquires(l), WaitingReleases(l), OwedAcquires(l), OwedReleases(l), Dropping(l), WeakTempsOf(l))
  }

  function Plus(a: Totals, b: Totals): Totals {
    Totals(a.acq + b.acq, a.rel + b.rel, a.owedAcq + b.owedAcq, a.owedRel + b.owedRel, a.dropping + b.dropping,
           a.weak + b.weak)
  }

  function Minus(a: Totals, b: Totals): Totals {
    Totals(a.acq - b.acq, a.rel - b.rel, a.owedAcq - b.owedAcq, a.owedRel - b.owedRel, a.dropping - b.dropping,
           a.weak - b.weak)
  }

  predicate Positive(T: Totals) {
    T.acq >= 0 && T.rel >= 0 && T.owedAcq >= 0 && T.owedRel >= 0 && T.dropping >= 0 && T.weak >= 0
  }

  /** Strong references: clients', those that wait for their command, those being dropped, those inside onFirstRef.
      Acquires less releases, sent, waiting or owed, is one exactly while the proxy is referenced. */
  predicate CountInv(s: State, T: Totals) {
    && s.strong == s.held + T.acq + T.dropping + T.owedAcq
    && s.weakTemps == T.weak
    && Count(s.driver, Acquire) + T.acq + T.owedAcq
       == Count(s.driver, Release) + T.rel + T.owedRel + Bit(s.strong > 0)
    && T.acq + T.owedAcq <= 1
  }

  predicate LooperInv(l: Looper) {
    && l.strongDerefs == Count(l.out, Acquire) && l.weakDerefs == Count(l.out, IncRefs)
    && (l.pc == OwesRelease ==> Count(l.out, Acquire) == 0)
    && Ordered(l.out)
  }

  predicate Inv(s: State) {
    && CountInv(s, TotalsOf(s.loopers)) && NeverOverReleased(s.driver)
    && forall t :: 0 <= t < |s.loopers| ==> LooperInv(s.loopers[t])
  }

  // ---------------------------------------------------------------- every step keeps it

  lemma TotalsMove(ls: seq<Looper>, t: nat, l: Looper)
    requires t < |ls|
    ensures TotalsOf(ls[t := l]) == Plus(Minus(TotalsOf(ls), Own(ls[t])), Own(l))
    ensures Positive(Minus(TotalsOf(ls), Own(ls[t])))
  {
    RestPositive(ls, t, WaitingAcquires, l);
    RestPositive(ls, t, WaitingReleases, l);
    RestPositive(ls, t, OwedAcquires, l);
    RestPositive(ls, t, OwedReleases, l);
    RestPositive(ls, t, Dropping, l);
    RestPositive(ls, t, WeakTempsOf, l);
  }

  lemma RestPositive(ls: seq<Looper>, t: nat, weight: Looper -> int, l: Looper)
    requires t < |ls| && forall x :: weight(x) >= 0
    ensures Sum(ls, weight) - weight(ls[t]) >= 0
    ensures Sum(ls[t := l], weight) == Sum(ls, weight) - weight(ls[t]) + weight(l)
  {
    OneWeight(ls, t, weight);
    SumUpdate(ls, t, l, weight);
  }

  lemma AppendCounts(out: seq<Command>, cmd: Command)
    ensures Count(out + [cmd], Acquire) == Count(out, Acquire) + (if cmd == Acquire then 1 else 0)
    ensures Count(out + [cmd], Release) == Count(out, Release) + (if cmd == Release then 1 else 0)
    ensures Count(out + [cmd], IncRefs) == Count(out, IncRefs) + (if cmd == IncRefs then 1 else 0)
  {
    CountConcat(out, [cmd], Acquire);
    CountConcat(out, [cmd], Release);
    CountConcat(out, [cmd], IncRefs);
  }

  lemma NoAcquire(cmds: seq<Command>)
    requires Count(cmds, Acquire) == 0
    ensures forall i :: 0 <= i < |cmds| ==> cmds[i] != Acquire
  {
    if cmds != [] {
      NoAcquire(cmds[1..]);
      assert forall i :: 0 < i < |cmds| ==> cmds[i] == cmds[1..][i - 1];
    }
  }

  /** One step of a thread, seen from the totals of the others. */
  lemma EffectKeepsCounts(s: State, rest: Totals, l: Looper, e: Event)
    requires e != Spawn && CountInv(s, Plus(rest, Own(l))) && Positive(rest) && LooperInv(l)
    requires Enabled(s.(loopers := [l]), Zero(e))
    ensures var (s', l') := Effect(s, l, e); CountInv(s', Plus(rest, Own(l')))
  {
    hide Ordered, NeverOverReleased, Count;
    match e {
      case WriteAcquire(_) => AppendCounts(l.out, Acquire);
      case WriteRelease(_) => AppendCounts(l.out, Release);
      case NewProxy(_) => AppendCounts(l.out, IncRefs);
      case WriteOther(_) => AppendCounts(l.out, Other);
      case Flush(_) =>
        CountConcat(s.driver, l.out, Acquire);
        CountConcat(s.driver, l.out, Release);
        NothingCounted();
      case _ =>
    }
  }

  lemma NothingCounted()
    ensures Count([], Acquire) == Count([], Release) == Count([], IncRefs) == 0
  {
  }

  /** The event as one of thread zero. */
  function Zero(e: Event): Event {
    match e
    case Spawn => e
    case _ => e.(t := 0)
  }

  lemma EffectKeepsLooper(s: State, rest: Totals, l: Looper, e: Event)
    requires e != Spawn && CountInv(s, Plus(rest, Own(l))) && Positive(rest) && LooperInv(l)
    requires Enabled(s.(loopers := [l]), Zero(e))
    ensures LooperInv(Effect(s, l, e).1)
  {
    AppendCounts(l.out, Acquire);
    AppendCounts(l.out, Release);
    AppendCounts(l.out, IncRefs);
    AppendCounts(l.out, Other);
    if l.pc == OwesRelease { NoAcquire(l.out); }
  }

  lemma OverReleaseConcat(a: seq<Command>, b: seq<Command>)
    requires NeverOverReleased(a) && Count(a, Release) + Count(b, Release) <= Count(a, Acquire)
    ensures NeverOverReleased(a + b)
  {
    forall k | 0 <= k <= |a + b| ensures Count((a + b)[..k], Release) <= Count((a + b)[..k], Acquire) {
      if k <= |a| {
        assert (a + b)[..k] == a[..k];
      } else {
        assert (a + b)[..k] == a + b[..k - |a|];
        CountConcat(a, b[..k - |a|], Release);
        CountConcat(a, b[..k - |a|], Acquire);
        CountPrefix(b, k - |a|, Release);
      }
    }
  }

  lemma SpawnKeepsTotals(ls: seq<Looper>)
    ensures TotalsOf(ls + [Looper(Ready, [], 0, 0, 0, 0)]) == TotalsOf(ls)
  {
    var l := Looper(Ready, [], 0, 0, 0, 0);
    SumAppend(ls, l, WaitingAcquires);
    SumAppend(ls, l, WaitingReleases);
    SumAppend(ls, l, OwedAcquires);
    SumAppend(ls, l, OwedReleases);
    SumAppend(ls, l, Dropping);
    SumAppend(ls, l, WeakTempsOf);
  }

  lemma StepKeepsInv(s: State, e: Event)
    requires Inv(s) && Enabled(s, e)
    ensures Inv(Step(s, e))
  {
    hide Count, Ordered, NeverOverReleased, Own, TotalsOf;
    if e == Spawn {
      SpawnKeepsTotals(s.loopers);
      NewLooper();
    } else {
      var l := s.loopers[e.t];
      var (s', l') := Effect(s, l, e);
      var rest := Minus(TotalsOf(s.loopers), Own(l));
      TotalsMove(s.loopers, e.t, l');
      assert Plus(rest, Own(l)) == TotalsOf(s.loopers);
      EffectKeepsCounts(s, rest, l, e);
      EffectKeepsLooper(s, rest, l, e);
      if e.Flush? { FlushIsCovered(s, rest, l); }
    }
  }

  lemma NewLooper()
    ensures LooperInv(Looper(Ready, [], 0, 0, 0, 0))
  {
  }

  lemma FlushIsCovered(s: State, rest: Totals, l: Looper)
    requires CountInv(s, Plus(rest, Own(l))) && Positive(rest) && NeverOverReleased(s.driver)
    ensures NeverOverReleased(s.driver + l.out)
  {
    OverReleaseConcat(s.driver, l.out);
  }

  lemma FreshInv(s: State)
    requires s.strong == s.weakTemps == s.held == 0 && s.loopers == [] && s.driver == []
    ensures Inv(s)
  {
    hide CountInv, TotalsOf, NeverOverReleased;
    FreshTotals(s.loopers);
    FreshCounts(s, TotalsOf(s.loopers));
  }

  lemma FreshTotals(ls: seq<Looper>)
    requires ls == []
    ensures TotalsOf(ls) == Totals(0, 0, 0, 0, 0, 0)
  {
  }

  lemma FreshCounts(s: State, T: Totals)
    requires s.strong == s.weakTemps == s.held == 0 && s.driver == []
    requires T.acq == T.rel == T.owedAcq == T.owedRel == T.dropping == T.weak == 0
    ensures CountInv(s, T) && NeverOverReleased(s.driver)
  {
    NothingCounted();
    hide Count;
  }

  lemma {:induction false} RunKeepsInv(s: State, run: seq<Event>)
    requires Inv(s) && IsRun(s, run)
    ensures Inv(After(s, run))
    decreases run
  {
    hide Inv, Step, Enabled;
    if run != [] {
      StepKeepsInv(s, run[0]);
      RunKeepsInv(Step(s, run[0]), run[1..]);
    }
  }

  ghost predicate Reachable(s: State) {
    exists run :: IsRun(Init(), run) && After(Init(), run) == s
  }

  lemma ReachableInv(s: State)
    requires Reachable(s)
    ensures Inv(s)
  {
    hide Inv, IsRun, After;
    var run :| IsRun(Init(), run) && After(Init(), run) == s;
    FreshInv(Init());
    RunKeepsInv(Init(), run);
  }

  lemma StillReachable(s: State, run: seq<Event>)
    requires Reachable(s) && IsRun(s, run)
    ensures Reachable(After(s, run))
  {
    hide IsRun, After;
    var before :| IsRun(Init(), before) && After(Init(), before) == s;
    RunConcat(Init(), before, run);
  }

  lemma StepReaches(s: State, e: Event)
    requires Reachable(s) && Enabled(s, e)
    ensures Reachable(Step(s, e))
  {
    hide Reachable;
    var one := [e];
    assert one[1..] == [] && After(Step(s, e), one[1..]) == Step(s, e);
    assert IsRun(s, one) && After(s, one) == Step(s, e);
    StillReachable(s, one);
  }

  lemma StepTo(s: State, e: Event) returns (s': State)
    requires Reachable(s) && Enabled(s, e)
    ensures Reachable(s') && s' == Step(s, e)
  {
    s' := Step(s, e);
    StepReaches(s, e);
  }

  // ---------------------------------------------------------------- what holds of every run

  /** At every step of every run: acquires less releases, sent or waiting, is one exactly while the proxy is referenced,
      up to the callbacks that have still to write; at rest it is exact. The driver never sees a release too many. */
  lemma AcquiresMatchReferences(s: State)
    requires Reachable(s)
    ensures Count(s.driver, Acquire) + Sum(s.loopers, WaitingAcquires)
         == Count(s.driver, Release) + Sum(s.loopers, WaitingReleases)
          + Bit(s.strong > 0) + Sum(s.loopers, OwedReleases) - Sum(s.loopers, OwedAcquires)
    ensures (forall t :: 0 <= t < |s.loopers| ==> s.loopers[t].pc == Ready) ==>
              Count(s.driver, Acquire) + Sum(s.loopers, WaitingAcquires)
              - Count(s.driver, Release) - Sum(s.loopers, WaitingReleases) == Bit(s.strong > 0)
    ensures NeverOverReleased(s.driver)
  {
    ReachableInv(s);
    hide Reachable, Count;
    if forall t :: 0 <= t < |s.loopers| ==> s.loopers[t].pc == Ready {
      SumZero(s.loopers, OwedAcquires);
      SumZero(s.loopers, OwedReleases);
    }
  }

  /** While a thread's acquire waits the proxy is referenced, by the temporary reference if by nothing else; no other
      acquire waits, and no release waits behind it. */
  lemma WaitingAcquireHolds(s: State, t: nat)
    requires Reachable(s) && t < |s.loopers| && Acquire in s.loopers[t].out
    ensures s.strong > 0 && s.loopers[t].strongDerefs == 1 && Ordered(s.loopers[t].out)
    ensures forall u :: 0 <= u < |s.loopers| && u != t ==> Acquire !in s.loopers[u].out
  {
    ReachableInv(s);
    hide Reachable;
    assert LooperInv(s.loopers[t]);
    InMeansCounted(s.loopers[t].out, Acquire);
    var rest := Minus(TotalsOf(s.loopers), Own(s.loopers[t]));
    TotalsMove(s.loopers, t, s.loopers[t]);
    forall u | 0 <= u < |s.loopers| && u != t ensures Acquire !in s.loopers[u].out {
      TwoWeights(s.loopers, if t < u then t else u, if t < u then u else t, WaitingAcquires);
      InMeansCounted(s.loopers[u].out, Acquire);
    }
  }

  lemma {:induction false} InMeansCounted(cmds: seq<Command>, c: Command)
    ensures c in cmds <==> Count(cmds, c) > 0
  {
    if cmds != [] {
      InMeansCounted(cmds[1..], c);
      assert c in cmds <==> c == cmds[0] || c in cmds[1..];
    }
  }

  /** A thread's unsent release will go out, or goes out, in one buffer with an acquire. */
  predicate Mixed(l: Looper) {
    Release in l.out && (Acquire in l.out || l.pc == OwesAcquire)
  }

  /** A thread brings the proxy back from zero while a release of it waits in the thread's own buffer. */
  predicate Revives(s: State, e: Event) {
    e.Take? && e.t < |s.loopers| && s.strong == 0 && Release in s.loopers[e.t].out
  }

  lemma StepMixes(s: State, e: Event, t: nat)
    requires Inv(s) && Enabled(s, e) && t < |Step(s, e).loopers| && Mixed(Step(s, e).loopers[t])
    ensures (t < |s.loopers| && Mixed(s.loopers[t])) || (Revives(s, e) && e.t == t)
  {
    hide CountInv, Ordered;
    if t < |s.loopers| && e != Spawn && e.t == t {
      assert LooperInv(s.loopers[t]);
      InMeansCounted(s.loopers[t].out, Acquire);
      hide Count;
    }
  }

  lemma RevivalMixes(s: State, e: Event)
    requires Enabled(s, e) && Revives(s, e)
    ensures Mixed(Step(s, e).loopers[e.t])
  {
  }

  function At(s: State, run: seq<Event>, i: nat): State
    requires IsRun(s, run) && i <= |run|
    decreases run
  {
    if i == 0 then s else At(Step(s, run[0]), run[1..], i - 1)
  }

  lemma {:induction false} MixedNeedsRevival(s: State, run: seq<Event>, i: nat, t: nat) returns (k: nat)
    requires Inv(s) && IsRun(s, run) && i <= |run| && t < |At(s, run, i).loopers| && Mixed(At(s, run, i).loopers[t])
    requires t < |s.loopers| ==> !Mixed(s.loopers[t])
    ensures k < |run| && Revives(At(s, run, k), run[k])
    decreases run
  {
    hide Inv, Enabled, Step, Mixed, Revives;
    assert i > 0;
    StepKeepsInv(s, run[0]);
    var s' := Step(s, run[0]);
    if t < |s'.loopers| && Mixed(s'.loopers[t]) {
      StepMixes(s, run[0], t);
      k := 0;
    } else {
      k := MixedNeedsRevival(s', run[1..], i - 1, t);
      k := k + 1;
    }
  }

  lemma {:induction false} RevivalShows(s: State, run: seq<Event>, k: nat) returns (t: nat)
    requires IsRun(s, run) && k < |run| && Revives(At(s, run, k), run[k])
    ensures t < |At(s, run, k + 1).loopers| && Mixed(At(s, run, k + 1).loopers[t])
    decreases run
  {
    hide Mixed, Revives, Enabled, Step;
    if k == 0 {
      t := RevivedThere(s, run[0]);
      assert At(s, run, 1) == At(Step(s, run[0]), run[1..], 0);
    } else {
      t := RevivalShows(Step(s, run[0]), run[1..], k - 1);
    }
  }

  lemma RevivedThere(s: State, e: Event) returns (t: nat)
    requires Enabled(s, e) && Revives(s, e)
    ensures t < |Step(s, e).loopers| && Mixed(Step(s, e).loopers[t])
  {
    t := e.t;
    RevivalMixes(s, e);
  }

  /** A release and an acquire meet in one buffer in exactly those runs in which some thread brings the proxy back from
      zero while a release of it waits in that thread's own buffer. */
  lemma ReleaseMeetsAcquireIffRevived(run: seq<Event>)
    requires IsRun(Init(), run)
    ensures (exists i, t :: 0 <= i <= |run| && 0 <= t < |At(Init(), run, i).loopers|
               && Mixed(At(Init(), run, i).loopers[t]))
       <==> (exists k :: 0 <= k < |run| && Revives(At(Init(), run, k), run[k]))
  {
    hide Mixed, Revives, IsRun, Enabled, Inv;
    FreshInv(Init());
    if i, t :| 0 <= i <= |run| && 0 <= t < |At(Init(), run, i).loopers| && Mixed(At(Init(), run, i).loopers[t]) {
      var k := MixedNeedsRevival(Init(), run, i, t);
    }
    if k :| 0 <= k < |run| && Revives(At(Init(), run, k), run[k]) {
      var i := k + 1;
      var t := RevivalShows(Init(), run, k);
      assert Mixed(At(Init(), run, i).loopers[t]);
    }
  }

  /** One thread takes and drops the first reference, flushing in between, and is asked for a reference again before it
      flushes: its buffer holds the release and then the acquire. */
  lemma ReleaseBeforeAcquire() returns (s: State)
    ensures Reachable(s) && |s.loopers| == 1 && s.loopers[0].out == [Release, Acquire]
  {
    s := Init();
    assert Reachable(s) by { assert IsRun(s, []) && After(s, []) == s; }
    hide Reachable, Step;
    s := StepTo(s, Spawn);
    assert s.strong == s.held == 0 && s.loopers == [Looper(Ready, [], 0, 0, 0, 0)] by { SpawnIs(Init()); }
    s := Alone(s, Take(0));
    s := Alone(s, WriteAcquire(0));
    assert s.loopers[0].out == [Acquire];
    s := Alone(s, Flush(0));
    s := Alone(s, DropTemp(0));
    s := Alone(s, Drop(0));
    s := Alone(s, WriteRelease(0));
    assert s.loopers[0].out == [Release];
    s := Alone(s, Take(0));
    s := Alone(s, WriteAcquire(0));
  }

  lemma SpawnIs(s: State)
    ensures Step(s, Spawn) == s.(loopers := s.loopers + [Looper(Ready, [], 0, 0, 0, 0)])
  {
  }

  /** A step of the only thread. */
  lemma Alone(s: State, e: Event) returns (s': State)
    requires Reachable(s) && e != Spawn && e.t == 0 && |s.loopers| == 1 && Enabled(s, e)
    ensures Reachable(s') && |s'.loopers| == 1
    ensures s' == Effect(s, s.loopers[0], e).0.(loopers := s'.loopers) && s'.loopers[0] == Effect(s, s.loopers[0], e).1
  {
    hide Reachable, Effect;
    s' := StepTo(s, e);
  }
}
