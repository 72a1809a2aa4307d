/** The reference counts of RefBase.c as a machine over atomic accesses.

    Every atomic load, add, subtract or compare-and-swap of `mStrong` and `mWeak`, and every call of a
    virtual function, is one step of one thread; any number of threads may be at any point of any call.
    `strongHeld` and `weakHeld` are the ledger: the references that finished calls have handed to clients
    and that no running call has taken back. */
module RefBase {
  import opened Sums

  const INITIAL_STRONG_VALUE: int := 0x1000_0000
  const MAX_COUNT: int := 0xfffff

  datatype Lifetime = Strong | Weak

  /** Where a thread stands inside the library, named after the access it performs next. */
  datatype Pc =
    | Idle
    | IncAdd            // incStrong: add to mStrong
    | IncUnbias         // incStrong: the old value was the bias, subtract it
    | ReqAdd            // incStrongRequireStrong: add to mStrong
    | ForceAdd          // forceIncStrong: add to mStrong
    | ForceUnbias       // forceIncStrong: subtract the bias
    | FirstRef          // incStrong, forceIncStrong: call onFirstRef
    | TryLoad           // attemptIncStrong: read mStrong
    | TryCas(cur: int)  // attemptIncStrong: first compare-and-swap loop
    | TrySlow(cur: int) // attemptIncStrong: look at the lifetime, ask onIncStrongAttempted
    | TryBiasCas(cur: int) // attemptIncStrong: second loop, strong lifetime
    | TryAdd            // attemptIncStrong: add to mStrong, weak lifetime
    | TryCompensate     // attemptIncStrong: the extra onLastStrongRef call
    | TryUnbias         // attemptIncStrong: subtract the bias
    | DecSub            // decStrong: subtract from mStrong
    | DecLast           // decStrong: call onLastStrongRef
    | DecFree           // decStrong: look at the lifetime, maybe call RefBase_delete
    | WeakSub           // decWeak: subtract from mWeak
    | WeakLast          // decWeak: mWeak reached zero, decide what to delete
    | WeakCas(cur: int) // attemptIncWeak: compare-and-swap loop

  datatype Op = IncStrong | IncStrongRequireStrong | ForceIncStrong | AttemptIncStrong | DecStrong
    | IncWeak | DecWeak | AttemptIncWeak

  /** What the callbacks and delete functions have seen so far. */
  datatype History = History(
    claims: nat,       // adds or swaps whose old value was the bias
    unbiasings: nat,   // subtractions of the bias
    firstRefs: nat,    // onFirstRef calls
    attempts: nat,     // onIncStrongAttempted calls that returned true
    lastRefs: nat,     // onLastStrongRef calls
    objDeletes: nat,   // RefBase_delete calls
    blockDeletes: nat, // RefBase_weakref_impl_delete calls
    orphans: nat,      // "lost last weak reference before it had a strong reference" messages
    revivals: nat)     // forceIncStrong calls whose old value was zero

  datatype State = State(
    lifetime: Lifetime,
    strong: int,
    weak: int,
    born: bool,        // some reference has been taken
    strongHeld: nat,
    weakHeld: nat,
    threads: seq<Pc>,
    h: History)

  datatype Event =
    | Spawn
    | Begin(t: nat, op: Op)
    | Go(t: nat, oracle: bool) // the oracle says whether a weak swap may succeed and what onIncStrongAttempted returns

  function Init(lifetime: Lifetime): State {
    State(lifetime, INITIAL_STRONG_VALUE, 0, false, 0, 0, [], History(0, 0, 0, 0, 0, 0, 0, 0, 0))
  }

  /** mStrong without the bias. */
  function Unbiased(strong: int): int {
    if strong >= INITIAL_STRONG_VALUE then strong - INITIAL_STRONG_VALUE else strong
  }

  // ---------------------------------------------------------------- the steps

  /** A client may use an object while some reference keeps it alive, or before the first reference. */
  predicate CanTouch(s: State) { s.weak > 0 || !s.born }

  predicate CanBegin(s: State, op: Op) {
    match op
    case DecStrong => s.strongHeld > 0
    case DecWeak => s.weakHeld > 0
    case AttemptIncWeak => true // for anyone who still has the control block's address
    case _ => CanTouch(s) && s.weak < MAX_COUNT
  }

  /** The checks that abort the process when a client breaks the rules. */
  predicate AssertionHolds(s: State, pc: Pc) {
    match pc
    case IncAdd => s.strong > 0
    case ReqAdd => s.strong > 0 && s.strong != INITIAL_STRONG_VALUE
    case WeakCas(_) => s.weak < MAX_COUNT
    case _ => true
  }

  function TakeWeak(s: State): State { s.(weak := s.weak + 1, born := true) }

  function BeginOp(s: State, op: Op): (State, Pc)
    requires CanBegin(s, op)
  {
    match op
    case IncStrong => (TakeWeak(s), IncAdd)
    case IncStrongRequireStrong => (TakeWeak(s), ReqAdd)
    case ForceIncStrong => (TakeWeak(s), ForceAdd)
    case AttemptIncStrong => (TakeWeak(s), TryLoad)
    case DecStrong => (s.(strongHeld := s.strongHeld - 1), DecSub)
    case IncWeak => (TakeWeak(s).(weakHeld := s.weakHeld + 1), Idle)
    case DecWeak => (s.(weakHeld := s.weakHeld - 1), WeakSub)
    case AttemptIncWeak => (s, if s.weak > 0 then WeakCas(s.weak) else Idle)
  }

  function Hold(s: State): State { s.(strongHeld := s.strongHeld + 1) }

  function Claim(s: State): State { s.(h := s.h.(claims := s.h.claims + 1)) }

  function Unbias(s: State): State {
    s.(strong := s.strong - INITIAL_STRONG_VALUE, h := s.h.(unbiasings := s.h.unbiasings + 1))
  }

  /** The next program counter of attemptIncStrong after reading `cur` in its first loop. */
  function TryLoop(cur: int): Pc {
    if cur > 0 && cur != INITIAL_STRONG_VALUE then TryCas(cur) else TrySlow(cur)
  }

  /** One atomic access of a thread at `pc`: the shared state after it, and where the thread stands. */
  function Effect(s: State, pc: Pc, oracle: bool): (State, Pc)
    requires pc != Idle
  {
    match pc
    case IncAdd =>
      var s' := s.(strong := s.strong + 1);
      if s.strong != INITIAL_STRONG_VALUE then (Hold(s'), Idle) else (Claim(s'), IncUnbias)
    case IncUnbias => (Unbias(s), FirstRef)
    case ReqAdd => (Hold(s.(strong := s.strong + 1)), Idle)
    case ForceAdd =>
      var s' := s.(strong := s.strong + 1);
      if s.strong == INITIAL_STRONG_VALUE then (Claim(s'), ForceUnbias)
      else if s.strong == 0 then (s'.(h := s.h.(revivals := s.h.revivals + 1)), FirstRef)
      else (Hold(s'), Idle)
    case ForceUnbias => (Unbias(s), FirstRef)
    case FirstRef => (Hold(s.(h := s.h.(firstRefs := s.h.firstRefs + 1))), Idle)
    case TryLoad => (s, TryLoop(s.strong))
    case TryCas(cur) =>
      if s.strong == cur && oracle then (Hold(s.(strong := s.strong + 1)), Idle) else (s, TryLoop(s.strong))
    case TrySlow(cur) =>
      if s.lifetime == Strong then (s, if cur <= 0 then WeakSub else TryBiasCas(cur))
      else if oracle then (s.(h := s.h.(attempts := s.h.attempts + 1)), TryAdd)
      else (s, WeakSub)
    case TryBiasCas(cur) =>
      if s.strong == cur && oracle then
        var s' := s.(strong := s.strong + 1);
        if cur == INITIAL_STRONG_VALUE then (Claim(s'), TryUnbias) else (Hold(s'), Idle)
      else (s, if s.strong <= 0 then WeakSub else TryBiasCas(s.strong))
    case TryAdd =>
      var s' := s.(strong := s.strong + 1);
      if s.strong == INITIAL_STRONG_VALUE then (Claim(s'), TryUnbias)
      else if s.strong != 0 then (s', TryCompensate)
      else (Hold(s'), Idle)
    case TryCompensate => (Hold(s.(h := s.h.(lastRefs := s.h.lastRefs + 1))), Idle)
    case TryUnbias => (Hold(Unbias(s)), Idle)
    case DecSub => (s.(strong := s.strong - 1), if s.strong == 1 then DecLast else WeakSub)
    case DecLast => (s.(h := s.h.(lastRefs := s.h.lastRefs + 1)), DecFree)
    case DecFree =>
      (if s.lifetime == Strong then s.(h := s.h.(objDeletes := s.h.objDeletes + 1)) else s, WeakSub)
    case WeakSub => (s.(weak := s.weak - 1), if s.weak == 1 then WeakLast else Idle)
    case WeakLast =>
      (if s.lifetime == Weak then s.(h := s.h.(objDeletes := s.h.objDeletes + 1))
       else if s.strong == INITIAL_STRONG_VALUE then s.(h := s.h.(orphans := s.h.orphans + 1))
       else s.(h := s.h.(blockDeletes := s.h.blockDeletes + 1)), Idle)
    case WeakCas(cur) =>
      if s.weak == cur && oracle then (TakeWeak(s).(weakHeld := s.weakHeld + 1), Idle)
      else (s, if s.weak > 0 then WeakCas(s.weak) else Idle)
  }

  predicate Enabled(s: State, e: Event) {
    match e
    case Spawn => true
    case Begin(t, op) => t < |s.threads| && s.threads[t] == Idle && CanBegin(s, op)
    case Go(t, _) => t < |s.threads| && s.threads[t] != Idle && AssertionHolds(s, s.threads[t])
  }

  function Step(s: State, e: Event): State
    requires Enabled(s, e)
  {
    match e
    case Spawn => s.(threads := s.threads + [Idle])
    case Begin(t, op) => var (s', pc) := BeginOp(s, op); s'.(threads := s.threads[t := pc])
    case Go(t, oracle) => var (s', pc) := Effect(s, s.threads[t], oracle); s'.(threads := s.threads[t := pc])
  }

  /** `run` is a schedule that a fresh object can follow. */
  predicate IsRun(lifetime: Lifetime, run: seq<Event>)
    decreases |run|, 0
  {
    run == [] ||
    var before := run[..|run| - 1];
    IsRun(lifetime, before) && Enabled(After(lifetime, before), run[|run| - 1])
  }

  /** The state that a run leads to. */
  function After(lifetime: Lifetime, run: seq<Event>): State
    requires IsRun(lifetime, run)
    decreases |run|, 1
  {
    if run == [] then Init(lifetime) else Step(After(lifetime, run[..|run| - 1]), run[|run| - 1])
  }

  // ---------------------------------------------------------------- what a thread owns

  function NothingOf(pc: Pc): int { 0 }

  lemma SumIdle(threads: seq<Pc>, weight: Pc -> int)
    requires weight(Idle) == 0 && forall i :: 0 <= i < |threads| ==> threads[i] == Idle
    ensures Sum(threads, weight) == 0
  {
    if threads != [] { SumIdle(threads[1..], weight); }
  }

  /** The weak reference that a running call owns. */
  function WeakOf(pc: Pc): int { Bit(!pc.Idle? && !pc.WeakLast? && !pc.WeakCas?) }

  /** Has taken the first reference and has still to remove the bias. */
  function UnbiasOf(pc: Pc): int { Bit(pc.IncUnbias? || pc.ForceUnbias? || pc.TryUnbias?) }

  /** The strong reference that a running call owns: an acquisition or a release in flight. */
  function StrongOf(pc: Pc): int { Bit(UnbiasOf(pc) == 1 || pc.FirstRef? || pc.TryCompensate? || pc.DecSub?) }

  /** Callbacks already made for a reference not yet counted, less callbacks still owed. */
  function AheadOf(pc: Pc): int {
    if pc.IncUnbias? || pc.ForceUnbias? || pc.FirstRef? then -1
    else Bit(pc.TryAdd? || pc.TryCompensate? || pc.DecLast?)
  }

  function LastOf(pc: Pc): int { Bit(pc.DecLast?) }

  function FreeOf(pc: Pc): int { Bit(pc.DecLast? || pc.DecFree?) }

  function WeakLastOf(pc: Pc): int { Bit(pc.WeakLast?) }

  /** What all running calls own together. */
  datatype Totals = Totals(weak: int, strong: int, unbias: int, ahead: int, last: int, free: int, weakLast: int)

  function TotalsOf(threads: seq<Pc>): Totals {
    Totals(Sum(threads, WeakOf), Sum(threads, StrongOf), Sum(threads, UnbiasOf), Sum(threads, AheadOf),
           Sum(threads, LastOf), Sum(threads, FreeOf), Sum(threads, WeakLastOf))
  }

  /** The totals when one thread moves from `pc` to `pc'`. */
  function Move(T: Totals, pc: Pc, pc': Pc): Totals {
    Totals(T.weak - WeakOf(pc) + WeakOf(pc'), T.strong - StrongOf(pc) + StrongOf(pc'),
           T.unbias - UnbiasOf(pc) + UnbiasOf(pc'), T.ahead - AheadOf(pc) + AheadOf(pc'),
           T.last - LastOf(pc) + LastOf(pc'), T.free - FreeOf(pc) + FreeOf(pc'),
           T.weakLast - WeakLastOf(pc) + WeakLastOf(pc'))
  }

  /** Bounds on what the threads other than one standing at `pc` own. */
  predicate Bounds(T: Totals, pc: Pc) {
    && 0 <= T.unbias - UnbiasOf(pc) <= T.strong - StrongOf(pc) <= T.weak - WeakOf(pc)
    && 0 <= T.last - LastOf(pc) <= T.free - FreeOf(pc) <= T.weak - WeakOf(pc)
    && 0 <= T.weakLast - WeakLastOf(pc)
  }

  lemma TotalsMove(threads: seq<Pc>, t: nat, pc: Pc)
    requires t < |threads|
    ensures TotalsOf(threads[t := pc]) == Move(TotalsOf(threads), threads[t], pc)
  {
    SumUpdate(threads, t, pc, WeakOf);
    SumUpdate(threads, t, pc, StrongOf);
    SumUpdate(threads, t, pc, UnbiasOf);
    SumUpdate(threads, t, pc, AheadOf);
    SumUpdate(threads, t, pc, LastOf);
    SumUpdate(threads, t, pc, FreeOf);
    SumUpdate(threads, t, pc, WeakLastOf);
  }

  lemma TotalsSpawn(threads: seq<Pc>)
    ensures TotalsOf(threads + [Idle]) == TotalsOf(threads)
  {
    SumAppend(threads, Idle, WeakOf);
    SumAppend(threads, Idle, StrongOf);
    SumAppend(threads, Idle, UnbiasOf);
    SumAppend(threads, Idle, AheadOf);
    SumAppend(threads, Idle, LastOf);
    SumAppend(threads, Idle, FreeOf);
    SumAppend(threads, Idle, WeakLastOf);
  }

  lemma TotalsBound(threads: seq<Pc>, t: nat)
    requires t < |threads|
    ensures Bounds(TotalsOf(threads), threads[t])
  {
    RestMonotone(threads, t, NothingOf, UnbiasOf);
    RestMonotone(threads, t, UnbiasOf, StrongOf);
    RestMonotone(threads, t, StrongOf, WeakOf);
    RestMonotone(threads, t, NothingOf, LastOf);
    RestMonotone(threads, t, LastOf, FreeOf);
    RestMonotone(threads, t, FreeOf, WeakOf);
    RestMonotone(threads, t, NothingOf, WeakLastOf);
    SumZero(threads, NothingOf);
  }

  // ---------------------------------------------------------------- the invariants

  predicate PcOk(lifetime: Lifetime, pc: Pc) {
    match pc
    case TryCas(cur) => cur > 0 && cur != INITIAL_STRONG_VALUE
    case TrySlow(cur) => cur == 0 || cur == INITIAL_STRONG_VALUE
    case TryBiasCas(cur) => lifetime == Strong && cur > 0
    case TryAdd => lifetime == Weak
    case TryCompensate => lifetime == Weak
    case WeakCas(cur) => cur > 0
    case _ => true
  }

  /** The counters agree with the ledger. */
  predicate LedgerInv(s: State, T: Totals) {
    && s.weak == s.weakHeld + s.strongHeld + T.weak
    && Unbiased(s.strong) == s.strongHeld + T.strong
    && 0 <= Unbiased(s.strong) <= s.weak <= MAX_COUNT
    && (s.weak > 0 ==> s.born)
  }

  /** Whoever took the first reference is the one thread that removes the bias. */
  predicate BiasInv(s: State, T: Totals) {
    && T.unbias == Bit(s.strong > INITIAL_STRONG_VALUE)
    && s.h.claims == Bit(s.strong != INITIAL_STRONG_VALUE)
    && s.h.unbiasings == Bit(s.strong < INITIAL_STRONG_VALUE)
  }

  predicate CountInv(s: State, T: Totals) { LedgerInv(s, T) && BiasInv(s, T) }

  /** Weak lifetime: announcements of the first reference less announcements of the last one. */
  predicate CallbackInv(s: State, T: Totals) {
    s.lifetime == Weak ==>
      s.h.firstRefs + s.h.attempts - s.h.lastRefs == Bit(Unbiased(s.strong) > 0) + T.ahead
  }

  /** The weak count reaches zero once, and what is deleted then. */
  predicate WeakEndInv(s: State, T: Totals) {
    && T.weakLast + s.h.blockDeletes + s.h.orphans + (if s.lifetime == Weak then s.h.objDeletes else 0)
       == Bit(s.weak == 0 && s.born)
    && (s.lifetime == Weak ==> s.h.blockDeletes == 0 && s.h.orphans == 0)
    && (s.h.orphans > 0 ==> s.strong == INITIAL_STRONG_VALUE)
  }

  /** Strong lifetime: one last reference and one deletion for each time the count came to zero, which is once and
      once more for every forceIncStrong that found it there. */
  predicate StrongEndInv(s: State, T: Totals) {
    s.lifetime == Strong ==>
      && s.h.lastRefs + T.last == s.h.revivals + Bit(s.strong == 0)
      && s.h.objDeletes + T.free == s.h.revivals + Bit(s.strong == 0)
      && (s.h.blockDeletes > 0 ==> s.strong == 0)
  }

  predicate TotalsInv(s: State, T: Totals) {
    CountInv(s, T) && CallbackInv(s, T) && WeakEndInv(s, T) && StrongEndInv(s, T)
  }

  predicate Inv(s: State) {
    && TotalsInv(s, TotalsOf(s.threads))
    && forall i :: 0 <= i < |s.threads| ==> PcOk(s.lifetime, s.threads[i])
  }

  // ---------------------------------------------------------------- every step keeps the invariants

  /** No access creates or loses a reference: what a counter gains, a client or the call itself owns. */
  lemma EffectConserves(s: State, pc: Pc, oracle: bool)
    requires 0 <= s.strong < 2 * INITIAL_STRONG_VALUE - 1
    requires UnbiasOf(pc) == 1 ==> s.strong > INITIAL_STRONG_VALUE
    requires pc == DecSub ==> s.strong != 0 && s.strong != INITIAL_STRONG_VALUE
    requires pc != Idle && PcOk(s.lifetime, pc) && AssertionHolds(s, pc) && s.strong != INITIAL_STRONG_VALUE - 1
    ensures var (s', pc') := Effect(s, pc, oracle);
            && s'.weak - s'.weakHeld - s'.strongHeld - WeakOf(pc') == s.weak - s.weakHeld - s.strongHeld - WeakOf(pc)
            && Unbiased(s'.strong) - s'.strongHeld - StrongOf(pc') == Unbiased(s.strong) - s.strongHeld - StrongOf(pc)
            && StrongOf(pc') <= WeakOf(pc')
            && (s'.weak > s.weak ==> s'.weak <= MAX_COUNT && s'.born)
            && (s.born ==> s'.born)
  {
  }

  lemma EffectKeepsLedger(s: State, T: Totals, pc: Pc, oracle: bool)
    requires CountInv(s, T) && Bounds(T, pc) && pc != Idle && PcOk(s.lifetime, pc) && AssertionHolds(s, pc)
    ensures var (s', pc') := Effect(s, pc, oracle); LedgerInv(s', Move(T, pc, pc'))
  {
    EffectConserves(s, pc, oracle);
  }

  /** One atomic access: the bias. */
  lemma EffectKeepsBias(s: State, T: Totals, pc: Pc, oracle: bool)
    requires CountInv(s, T) && Bounds(T, pc) && pc != Idle && PcOk(s.lifetime, pc) && AssertionHolds(s, pc)
    ensures var (s', pc') := Effect(s, pc, oracle); BiasInv(s', Move(T, pc, pc'))
  {
  }

  /** One atomic access: the callbacks of a weak-lifetime object. */
  lemma EffectKeepsCallbacks(s: State, T: Totals, pc: Pc, oracle: bool)
    requires CountInv(s, T) && CallbackInv(s, T) && s.lifetime == Weak
    requires Bounds(T, pc) && pc != Idle && PcOk(s.lifetime, pc) && AssertionHolds(s, pc)
    ensures var (s', pc') := Effect(s, pc, oracle); CallbackInv(s', Move(T, pc, pc'))
  {
  }

  /** One atomic access: the end of the weak count. */
  lemma EffectKeepsWeakEnd(s: State, T: Totals, pc: Pc, oracle: bool)
    requires CountInv(s, T) && WeakEndInv(s, T)
    requires Bounds(T, pc) && pc != Idle && PcOk(s.lifetime, pc) && AssertionHolds(s, pc)
    ensures var (s', pc') := Effect(s, pc, oracle); WeakEndInv(s', Move(T, pc, pc'))
  {
  }

  /** One atomic access: the end of a strong-lifetime object. */
  lemma EffectKeepsStrongEnd(s: State, T: Totals, pc: Pc, oracle: bool)
    requires CountInv(s, T) && WeakEndInv(s, T) && StrongEndInv(s, T) && s.lifetime == Strong
    requires Bounds(T, pc) && pc != Idle && PcOk(s.lifetime, pc) && AssertionHolds(s, pc)
    ensures var (s', pc') := Effect(s, pc, oracle); StrongEndInv(s', Move(T, pc, pc'))
  {
  }

  lemma EffectKeepsPcOk(s: State, pc: Pc, oracle: bool)
    requires 0 <= s.strong && pc != Idle && PcOk(s.lifetime, pc)
    ensures var (s', pc') := Effect(s, pc, oracle); s'.lifetime == s.lifetime && PcOk(s.lifetime, pc')
  {
  }

  lemma GoKeepsTotals(s: State, T: Totals, pc: Pc, oracle: bool)
    requires TotalsInv(s, T) && Bounds(T, pc) && pc != Idle && PcOk(s.lifetime, pc) && AssertionHolds(s, pc)
    ensures var (s', pc') := Effect(s, pc, oracle); TotalsInv(s', Move(T, pc, pc'))
  {
    var (s', pc') := Effect(s, pc, oracle);
    EffectKeepsPcOk(s, pc, oracle);
    assert CountInv(s', Move(T, pc, pc')) by { EffectKeepsLedger(s, T, pc, oracle); EffectKeepsBias(s, T, pc, oracle); }
    assert WeakEndInv(s', Move(T, pc, pc')) by { EffectKeepsWeakEnd(s, T, pc, oracle); }
    assert CallbackInv(s', Move(T, pc, pc')) by { if s.lifetime == Weak { EffectKeepsCallbacks(s, T, pc, oracle); } }
    assert StrongEndInv(s', Move(T, pc, pc')) by { if s.lifetime == Strong { EffectKeepsStrongEnd(s, T, pc, oracle); } }
  }

  lemma BeginKeepsTotals(s: State, T: Totals, op: Op)
    requires TotalsInv(s, T) && Bounds(T, Idle) && CanBegin(s, op)
    ensures var (s', pc') := BeginOp(s, op);
            TotalsInv(s', Move(T, Idle, pc')) && PcOk(s.lifetime, pc') && s'.lifetime == s.lifetime
  {
    BeginKeepsCounts(s, T, op);
    BeginKeepsEnds(s, T, op);
    hide CountInv, CallbackInv, WeakEndInv, StrongEndInv, Move, PcOk;
  }

  lemma BeginKeepsCounts(s: State, T: Totals, op: Op)
    requires CountInv(s, T) && Bounds(T, Idle) && CanBegin(s, op)
    ensures var (s', pc') := BeginOp(s, op);
            CountInv(s', Move(T, Idle, pc')) && PcOk(s.lifetime, pc') && s'.lifetime == s.lifetime
  {
  }

  lemma BeginKeepsEnds(s: State, T: Totals, op: Op)
    requires TotalsInv(s, T) && Bounds(T, Idle) && CanBegin(s, op)
    ensures var (s', pc') := BeginOp(s, op);
            var T' := Move(T, Idle, pc'); CallbackInv(s', T') && WeakEndInv(s', T') && StrongEndInv(s', T')
  {
  }

  /** The invariants look at the threads only through their totals. */
  lemma Reseat(s: State, threads: seq<Pc>, T: Totals)
    requires TotalsInv(s, T)
    ensures TotalsInv(s.(threads := threads), T)
  {
  }

  lemma BeginKeepsInv(s: State, t: nat, op: Op)
    requires Inv(s) && Enabled(s, Begin(t, op))
    ensures Inv(Step(s, Begin(t, op)))
  {
    var (s', pc) := BeginOp(s, op);
    TotalsBound(s.threads, t);
    TotalsMove(s.threads, t, pc);
    BeginKeepsTotals(s, TotalsOf(s.threads), op);
    Reseat(s', s.threads[t := pc], TotalsOf(s.threads[t := pc]));
  }

  lemma GoKeepsInv(s: State, t: nat, oracle: bool)
    requires Inv(s) && Enabled(s, Go(t, oracle))
    ensures Inv(Step(s, Go(t, oracle)))
  {
    var (s', pc) := Effect(s, s.threads[t], oracle);
    TotalsBound(s.threads, t);
    TotalsMove(s.threads, t, pc);
    GoKeepsTotals(s, TotalsOf(s.threads), s.threads[t], oracle);
    EffectKeepsPcOk(s, s.threads[t], oracle);
    Reseat(s', s.threads[t := pc], TotalsOf(s.threads[t := pc]));
  }

  lemma StepKeepsInv(s: State, e: Event)
    requires Inv(s) && Enabled(s, e)
    ensures Inv(Step(s, e))
  {
    match e
    case Spawn =>
      TotalsSpawn(s.threads);
      Reseat(s, s.threads + [Idle], TotalsOf(s.threads));
    case Begin(t, op) => BeginKeepsInv(s, t, op);
    case Go(t, oracle) => GoKeepsInv(s, t, oracle);
  }

  // ---------------------------------------------------------------- every run

  lemma InitInv(lifetime: Lifetime)
    ensures Inv(Init(lifetime))
  {
    hide TotalsInv, TotalsOf;
    QuiescentTotals(Init(lifetime).threads);
    FreshTotals(Init(lifetime), Totals(0, 0, 0, 0, 0, 0, 0));
  }

  lemma FreshTotals(s: State, T: Totals)
    requires s.strong == INITIAL_STRONG_VALUE && s.weak == s.strongHeld == s.weakHeld == 0 && !s.born
    requires s.h.claims == s.h.unbiasings == s.h.firstRefs == s.h.attempts == s.h.lastRefs == 0
    requires s.h.objDeletes == s.h.blockDeletes == s.h.orphans == s.h.revivals == 0
    requires T.weak == T.strong == T.unbias == T.ahead == T.last == T.free == T.weakLast == 0
    ensures TotalsInv(s, T)
  {
  }

  lemma {:induction false} RunKeepsInv(lifetime: Lifetime, run: seq<Event>)
    requires IsRun(lifetime, run)
    ensures Inv(After(lifetime, run)) && After(lifetime, run).lifetime == lifetime
    decreases |run|
  {
    hide Step, Enabled, Inv;
    if run == [] {
      InitInv(lifetime);
    } else {
      var before := run[..|run| - 1];
      RunKeepsInv(lifetime, before);
      var s, e := After(lifetime, before), run[|run| - 1];
      StepKeepsInv(s, e);
      StepKeepsLifetime(s, e);
      assert After(lifetime, run) == Step(s, e);
    }
  }

  lemma StepKeepsLifetime(s: State, e: Event)
    requires Enabled(s, e)
    ensures Step(s, e).lifetime == s.lifetime
  {
    if e.Go? {
      var (s', pc) := Effect(s, s.threads[e.t], e.oracle);
      assert s'.lifetime == s.lifetime;
    }
  }

  lemma TotalsOrdered(threads: seq<Pc>)
    ensures var T := TotalsOf(threads);
            0 <= T.unbias <= T.strong <= T.weak && 0 <= T.last <= T.free <= T.weak && 0 <= T.weakLast
  {
    SumZero(threads, NothingOf);
    SumMonotone(threads, NothingOf, UnbiasOf);
    SumMonotone(threads, UnbiasOf, StrongOf);
    SumMonotone(threads, StrongOf, WeakOf);
    SumMonotone(threads, NothingOf, LastOf);
    SumMonotone(threads, LastOf, FreeOf);
    SumMonotone(threads, FreeOf, WeakOf);
    SumMonotone(threads, NothingOf, WeakLastOf);
  }

  predicate Quiescent(s: State) { forall i :: 0 <= i < |s.threads| ==> s.threads[i] == Idle }

  lemma QuiescentTotals(threads: seq<Pc>)
    requires forall i :: 0 <= i < |threads| ==> threads[i] == Idle
    ensures TotalsOf(threads) == Totals(0, 0, 0, 0, 0, 0, 0)
  {
    SumIdle(threads, WeakOf);
    SumIdle(threads, StrongOf);
    SumIdle(threads, UnbiasOf);
    SumIdle(threads, AheadOf);
    SumIdle(threads, LastOf);
    SumIdle(threads, FreeOf);
    SumIdle(threads, WeakLastOf);
  }

  /** Some schedule leads a fresh object to this state. */
  ghost predicate Reachable(s: State) {
    exists run :: IsRun(s.lifetime, run) && After(s.lifetime, run) == s
  }

  lemma ReachableInv(s: State)
    requires Reachable(s)
    ensures Inv(s)
  {
    var run :| IsRun(s.lifetime, run) && After(s.lifetime, run) == s;
    RunKeepsInv(s.lifetime, run);
  }

  /** The bias: at most one thread ever sees it as the old value, and it alone removes it, once; while that
      thread has still to remove it the count is above the bias, so the check in incStrong never fails; the
      count never equals the bias again. */
  lemma BiasIsRemovedOnce(s: State)
    requires Reachable(s)
    ensures s.h.unbiasings <= s.h.claims <= 1
    ensures (s.strong == INITIAL_STRONG_VALUE <==> s.h.claims == 0)
    ensures (s.h.unbiasings == 1 <==> s.strong < INITIAL_STRONG_VALUE)
    ensures (forall t :: 0 <= t < |s.threads| && UnbiasOf(s.threads[t]) == 1 ==> s.strong > INITIAL_STRONG_VALUE)
    ensures (forall t, u :: 0 <= t < u < |s.threads| ==> UnbiasOf(s.threads[t]) == 0 || UnbiasOf(s.threads[u]) == 0)
  {
    ReachableInv(s);
    forall t | 0 <= t < |s.threads| && UnbiasOf(s.threads[t]) == 1 ensures s.strong > INITIAL_STRONG_VALUE {
      TotalsBound(s.threads, t);
    }
    forall t, u | 0 <= t < u < |s.threads| ensures UnbiasOf(s.threads[t]) == 0 || UnbiasOf(s.threads[u]) == 0 {
      TwoWeights(s.threads, t, u, UnbiasOf);
    }
  }

  /** The strong count without the bias is the number of strong references that clients hold or that calls
      are acquiring or releasing; the weak count covers it; nothing overflows. */
  lemma CountsMatchLedger(s: State)
    requires Reachable(s)
    ensures Unbiased(s.strong) == s.strongHeld + Sum(s.threads, StrongOf)
    ensures s.weak == s.weakHeld + s.strongHeld + Sum(s.threads, WeakOf)
    ensures 0 <= Unbiased(s.strong) <= s.weak <= MAX_COUNT
    ensures (Quiescent(s) ==> Unbiased(s.strong) == s.strongHeld && s.weak == s.weakHeld + s.strongHeld)
  {
    ReachableInv(s);
    if Quiescent(s) { QuiescentTotals(s.threads); }
  }

  /** BAD_STRONG and BAD_WEAK, with the mask written as the ranges it lets through. */
  predicate BadStrong(c: int) {
    c == 0 || !(0 <= c <= MAX_COUNT || INITIAL_STRONG_VALUE <= c <= INITIAL_STRONG_VALUE + MAX_COUNT)
  }

  predicate BadWeak(c: int) { c == 0 || !(0 <= c <= MAX_COUNT) }

  /** The masks of the two macros, on 32-bit words, let through exactly those ranges. */
  lemma MasksAreRanges(c: bv32)
    ensures c & !(0xfffff | 0x1000_0000) == 0 <==> c <= 0xfffff || (0x1000_0000 <= c && c <= 0x100f_ffff)
    ensures c & !0xfffff == 0 <==> c <= 0xfffff
  {
  }

  /** No decrement ever trips the "too many times" checks: a caller that holds a reference finds it counted. */
  lemma DecrementsAreSafe(s: State, t: nat)
    requires Reachable(s) && t < |s.threads|
    ensures (s.threads[t] == DecSub ==> !BadStrong(s.strong))
    ensures (s.threads[t] == WeakSub ==> !BadWeak(s.weak))
  {
    ReachableInv(s);
    TotalsBound(s.threads, t);
  }

  /** While any client holds a strong reference, neither incStrong nor incStrongRequireStrong can trip its check. */
  lemma HolderMayIncrement(s: State)
    requires Reachable(s) && s.strongHeld > 0
    ensures AssertionHolds(s, IncAdd) && AssertionHolds(s, ReqAdd)
  {
    ReachableInv(s);
    TotalsOrdered(s.threads);
  }

  /** Weak lifetime, nothing running: the callbacks have announced the object exactly when it is referenced,
      also after racing attemptIncStrong calls made their extra onLastStrongRef calls. */
  lemma CallbacksBalance(s: State)
    requires Reachable(s) && s.lifetime == Weak && Quiescent(s)
    ensures s.h.firstRefs + s.h.attempts - s.h.lastRefs == Bit(Unbiased(s.strong) > 0)
  {
    ReachableInv(s);
    QuiescentTotals(s.threads);
  }

  // ---------------------------------------------------------------- what is final in a run

  lemma {:induction false} PrefixIsRun(lifetime: Lifetime, run: seq<Event>, i: nat)
    requires IsRun(lifetime, run) && i <= |run|
    ensures IsRun(lifetime, run[..i])
    decreases |run|
  {
    hide Enabled, After;
    if i == |run| {
      assert run[..i] == run;
    } else {
      PrefixIsRun(lifetime, run[..|run| - 1], i);
      assert run[..|run| - 1][..i] == run[..i];
    }
  }

  /** The state of a run after its first `i` events. */
  function At(lifetime: Lifetime, run: seq<Event>, i: nat): State
    requires IsRun(lifetime, run) && i <= |run|
  {
    PrefixIsRun(lifetime, run, i);
    After(lifetime, run[..i])
  }

  lemma AfterIsReachable(lifetime: Lifetime, run: seq<Event>)
    requires IsRun(lifetime, run)
    ensures Reachable(After(lifetime, run)) && After(lifetime, run).lifetime == lifetime
  {
    hide Step, Enabled, Inv;
    RunKeepsInv(lifetime, run);
  }

  lemma AtStep(lifetime: Lifetime, run: seq<Event>, i: nat)
    requires IsRun(lifetime, run) && i <= |run|
    ensures Reachable(At(lifetime, run, i)) && At(lifetime, run, i).lifetime == lifetime
    ensures i < |run| ==>
              && Enabled(At(lifetime, run, i), run[i])
              && At(lifetime, run, i + 1) == Step(At(lifetime, run, i), run[i])
  {
    hide Step, Enabled, Inv, Reachable;
    PrefixIsRun(lifetime, run, i);
    AfterIsReachable(lifetime, run[..i]);
    if i < |run| {
      PrefixIsRun(lifetime, run, i + 1);
      assert run[..i + 1][..i] == run[..i];
    }
  }

  /** The step that takes a strong-lifetime object back from zero: forceIncStrong finding a zero count. */
  predicate ForcesZero(s: State, e: Event) {
    e.Go? && e.t < |s.threads| && s.threads[e.t] == ForceAdd && s.strong == 0
  }

  lemma EffectFinality(s: State, T: Totals, pc: Pc, oracle: bool)
    requires CountInv(s, T) && Bounds(T, pc) && pc != Idle && PcOk(s.lifetime, pc) && AssertionHolds(s, pc)
    ensures var (s', _) := Effect(s, pc, oracle);
            && s'.h.claims >= s.h.claims
            && (s.weak == 0 ==> s'.weak == 0)
            && (s.lifetime == Strong && s.strong == 0 ==> (s'.strong == 0 <==> pc != ForceAdd))
  {
  }

  lemma StepFinality(s: State, e: Event)
    requires Reachable(s) && Enabled(s, e)
    ensures s.strong != INITIAL_STRONG_VALUE ==> Step(s, e).strong != INITIAL_STRONG_VALUE
    ensures s.born && s.weak == 0 ==> Step(s, e).born && Step(s, e).weak == 0
    ensures s.lifetime == Strong && s.strong == 0 ==> (Step(s, e).strong == 0 <==> !ForcesZero(s, e))
  {
    ReachableInv(s);
    StepKeepsInv(s, e);
    if e.Go? {
      TotalsBound(s.threads, e.t);
      EffectFinality(s, TotalsOf(s.threads), s.threads[e.t], e.oracle);
    }
  }

  /** Once the first reference has been taken, the count never reads as the bias again. */
  lemma {:induction false} BiasNeverReturns(lifetime: Lifetime, run: seq<Event>, i: nat, j: nat)
    requires IsRun(lifetime, run) && i <= j <= |run|
    requires At(lifetime, run, i).strong != INITIAL_STRONG_VALUE
    ensures At(lifetime, run, j).strong != INITIAL_STRONG_VALUE
    decreases j
  {
    hide Step, Enabled, Reachable, After, IsRun;
    if i < j {
      BiasNeverReturns(lifetime, run, i, j - 1);
      AtStep(lifetime, run, j - 1);
      StepFinality(At(lifetime, run, j - 1), run[j - 1]);
    }
  }

  /** Once the weak count has come back to zero it stays zero. */
  lemma {:induction false} WeakZeroIsFinal(lifetime: Lifetime, run: seq<Event>, i: nat, j: nat)
    requires IsRun(lifetime, run) && i <= j <= |run|
    requires At(lifetime, run, i).born && At(lifetime, run, i).weak == 0
    ensures At(lifetime, run, j).born && At(lifetime, run, j).weak == 0
    decreases j
  {
    hide Step, Enabled, Reachable, After, IsRun;
    if i < j {
      WeakZeroIsFinal(lifetime, run, i, j - 1);
      AtStep(lifetime, run, j - 1);
      StepFinality(At(lifetime, run, j - 1), run[j - 1]);
    }
  }

  lemma {:induction false} StrongZeroStays(lifetime: Lifetime, run: seq<Event>, i: nat, j: nat)
    requires lifetime == Strong && IsRun(lifetime, run) && i <= j <= |run|
    requires forall k :: 0 <= k < |run| ==> !ForcesZero(At(lifetime, run, k), run[k])
    requires At(lifetime, run, i).strong == 0
    ensures At(lifetime, run, j).strong == 0
    decreases j
  {
    hide Step, Enabled, Reachable, After, IsRun;
    if i < j {
      StrongZeroStays(lifetime, run, i, j - 1);
      AtStep(lifetime, run, j - 1);
      StepFinality(At(lifetime, run, j - 1), run[j - 1]);
    }
  }

  /** Strong lifetime: a zero strong count is final in exactly those runs in which no forceIncStrong finds it;
      however many attemptIncStrong calls race, they never bring it back. */
  lemma StrongZeroIsFinalUnlessForced(lifetime: Lifetime, run: seq<Event>)
    requires lifetime == Strong && IsRun(lifetime, run)
    ensures (forall i, j :: 0 <= i <= j <= |run| && At(lifetime, run, i).strong == 0 ==>
               At(lifetime, run, j).strong == 0)
       <==> (forall k :: 0 <= k < |run| ==> !ForcesZero(At(lifetime, run, k), run[k]))
  {
    hide Step, Enabled, Reachable, After, IsRun;
    if forall k :: 0 <= k < |run| ==> !ForcesZero(At(lifetime, run, k), run[k]) {
      forall i, j | 0 <= i <= j <= |run| && At(lifetime, run, i).strong == 0 ensures At(lifetime, run, j).strong == 0 {
        StrongZeroStays(lifetime, run, i, j);
      }
    } else {
      var k :| 0 <= k < |run| && ForcesZero(At(lifetime, run, k), run[k]);
      AtStep(lifetime, run, k);
      StepFinality(At(lifetime, run, k), run[k]);
      assert At(lifetime, run, k).strong == 0 && At(lifetime, run, k + 1).strong != 0;
    }
  }

  // ---------------------------------------------------------------- why an attempt fails

  /** What later states keep: a strong-lifetime object that is dead stays dead unless forceIncStrong revives it. */
  predicate Later(s: State, s': State) {
    && s'.lifetime == s.lifetime && s.h.revivals <= s'.h.revivals
    && (s.lifetime == Strong && s.strong == 0 && s'.h.revivals == s.h.revivals ==> s'.strong == 0)
  }

  lemma StepIsLater(s: State, e: Event)
    requires Reachable(s) && Enabled(s, e)
    ensures Later(s, Step(s, e))
    ensures ForcesZero(s, e) ==> s.h.revivals < Step(s, e).h.revivals
  {
    StepFinality(s, e);
    StepKeepsLifetime(s, e);
    if e.Go? { EffectRevives(s, s.threads[e.t], e.oracle); }
    hide Effect, Reachable;
  }

  lemma EffectRevives(s: State, pc: Pc, oracle: bool)
    requires pc != Idle
    ensures Effect(s, pc, oracle).0.h.revivals == s.h.revivals + Bit(pc == ForceAdd && s.strong == 0)
  {
  }

  /** Of any two states of a run the second is later. */
  lemma {:induction false} RunIsLater(lifetime: Lifetime, run: seq<Event>, i: nat, j: nat)
    requires IsRun(lifetime, run) && i <= j <= |run|
    ensures Later(At(lifetime, run, i), At(lifetime, run, j))
    decreases j
  {
    hide Step, Enabled, Reachable, After, IsRun;
    if i < j {
      RunIsLater(lifetime, run, i, j - 1);
      AtStep(lifetime, run, j - 1);
      StepIsLater(At(lifetime, run, j - 1), run[j - 1]);
    }
  }

  predicate StandsAt(s: State, t: nat, pc: Pc) { t < |s.threads| && s.threads[t] == pc }

  /** How a thread comes to give up the first loop of attemptIncStrong: it reads zero or the bias. */
  lemma StepGivesUp(s: State, e: Event, t: nat, cur: int)
    requires Reachable(s) && Enabled(s, e) && StandsAt(Step(s, e), t, TrySlow(cur))
    ensures t < |s.threads|
    ensures StandsAt(s, t, TrySlow(cur))
         || ((s.threads[t] == TryLoad || s.threads[t].TryCas?) && s.strong == cur
             && (cur == 0 || cur == INITIAL_STRONG_VALUE))
  {
    CountsMatchLedger(s);
    hide Reachable;
    if e.Go? && e.t == t {
      EffectGivesUp(s, s.threads[t], e.oracle, cur);
    }
    hide Effect;
  }

  lemma EffectGivesUp(s: State, pc: Pc, oracle: bool, cur: int)
    requires pc != Idle && Effect(s, pc, oracle).1 == TrySlow(cur)
    ensures (pc == TryLoad || pc.TryCas?) && s.strong == cur && (cur <= 0 || cur == INITIAL_STRONG_VALUE)
  {
  }

  /** In every run, a thread that stands past the first loop of attemptIncStrong found the count at zero or at the
      bias when it left the loop, which is in this very call: a lost swap alone never makes it give up. */
  lemma {:induction false} GivesUpOnlyUnreferenced(lifetime: Lifetime, run: seq<Event>, j: nat, t: nat, cur: int)
    returns (i: nat)
    requires IsRun(lifetime, run) && j <= |run| && StandsAt(At(lifetime, run, j), t, TrySlow(cur))
    ensures i < j && t < |At(lifetime, run, i).threads|
    ensures var pc := At(lifetime, run, i).threads[t]; pc == TryLoad || pc.TryCas?
    ensures At(lifetime, run, i).strong == cur && (cur == 0 || cur == INITIAL_STRONG_VALUE)
    ensures forall k :: i < k <= j ==> StandsAt(At(lifetime, run, k), t, TrySlow(cur))
    decreases j
  {
    hide Step, Enabled, Reachable, After, IsRun;
    if j == 0 {
      NobodyAtFirst(lifetime, run);
    } else {
      i := j - 1;
      AtStep(lifetime, run, i);
      StepGivesUp(At(lifetime, run, i), run[i], t, cur);
      if StandsAt(At(lifetime, run, i), t, TrySlow(cur)) {
        i := GivesUpOnlyUnreferenced(lifetime, run, i, t, cur);
      }
    }
  }

  lemma NobodyAtFirst(lifetime: Lifetime, run: seq<Event>)
    requires IsRun(lifetime, run)
    ensures At(lifetime, run, 0).threads == []
  {
    assert run[..0] == [];
  }

  /** The step with which attemptIncStrong fails on an object of strong lifetime. */
  predicate Fails(s: State, e: Event, t: nat) {
    && e.Go? && e.t == t < |s.threads| && Enabled(s, e) && (s.threads[t].TrySlow? || s.threads[t].TryBiasCas?)
    && StandsAt(Step(s, e), t, WeakSub)
  }

  /** Strong lifetime, every run: attemptIncStrong fails only if the count was zero at a moment of the call, and so only
      on an object that is dead when it fails, unless forceIncStrong has revived it since that moment. */
  lemma FailsOnlyWhenDead(lifetime: Lifetime, run: seq<Event>, j: nat, t: nat) returns (i: nat)
    requires lifetime == Strong && IsRun(lifetime, run) && j < |run| && Fails(At(lifetime, run, j), run[j], t)
    ensures i <= j && At(lifetime, run, i).strong == 0 && t < |At(lifetime, run, i).threads|
    ensures var pc := At(lifetime, run, i).threads[t]; pc == TryLoad || pc.TryCas? || pc.TryBiasCas?
    ensures forall k :: i < k <= j ==> StandsAt(At(lifetime, run, k), t, TrySlow(0))
    ensures At(lifetime, run, j + 1).h.revivals == At(lifetime, run, i).h.revivals ==>
              At(lifetime, run, j + 1).strong == 0
  {
    hide Reachable, After, IsRun;
    i := j;
    AtStep(lifetime, run, j);
    var s := At(lifetime, run, j);
    FailsOnZero(s, run[j], t);
    if s.threads[t].TrySlow? {
      i := GivesUpOnlyUnreferenced(lifetime, run, j, t, 0);
    }
    RunIsLater(lifetime, run, i, j + 1);
  }

  lemma FailsOnZero(s: State, e: Event, t: nat)
    requires Reachable(s) && s.lifetime == Strong && Fails(s, e, t)
    ensures s.threads[t] == TrySlow(0) || (s.threads[t].TryBiasCas? && s.strong == 0)
  {
    ReachableInv(s);
  }

  /** Strong lifetime, every run: onLastStrongRef and RefBase_delete are called once for each time the count came
      to zero, never more often than forceIncStrong brought it back plus once; the object is deleted exactly once
      if and only if nobody forced it back; a client holds a deleted object if and only if somebody did. The
      control block is deleted at most once, with no reference of any kind left. */
  lemma StrongLifetimeEndsOnce(s: State)
    requires Reachable(s) && s.lifetime == Strong
    ensures s.h.objDeletes <= s.h.lastRefs <= s.h.revivals + Bit(s.strong == 0) && s.h.blockDeletes <= 1
    ensures s.h.lastRefs == s.h.revivals + 1 ==> s.strong == 0 && s.strongHeld == 0 && Sum(s.threads, StrongOf) == 0
    ensures s.h.blockDeletes == 1 ==>
              s.h.objDeletes == s.h.revivals + 1 && s.weak == 0 && s.weakHeld == 0 && s.strongHeld == 0
    ensures Quiescent(s) ==> s.h.lastRefs == s.h.objDeletes == s.h.revivals + Bit(s.strong == 0)
    ensures Quiescent(s) && s.strong == 0 ==> (s.h.objDeletes == 1 <==> s.h.revivals == 0)
    ensures Quiescent(s) && s.strongHeld > 0 ==> (s.h.objDeletes > 0 <==> s.h.revivals > 0)
    ensures Quiescent(s) && s.weak == 0 && s.born ==> s.h.blockDeletes + s.h.orphans == 1
    ensures Quiescent(s) && s.weak == 0 && s.born ==> (s.h.blockDeletes == 1 <==> s.h.claims == 1)
  {
    ReachableInv(s);
    TotalsOrdered(s.threads);
    if Quiescent(s) { QuiescentTotals(s.threads); }
  }

  /** Weak lifetime: RefBase_delete is called at most once, exactly when the weak count has come back to zero
      and the last decWeak has returned, with no reference of any kind left. */
  lemma WeakLifetimeEndsOnce(s: State)
    requires Reachable(s) && s.lifetime == Weak
    ensures s.h.objDeletes <= 1 && s.h.blockDeletes == 0
    ensures s.h.objDeletes == 1 ==> s.weak == 0 && s.weakHeld == 0 && s.strongHeld == 0 && Unbiased(s.strong) == 0
    ensures Quiescent(s) ==> s.h.objDeletes == Bit(s.weak == 0 && s.born)
  {
    ReachableInv(s);
    TotalsOrdered(s.threads);
    if Quiescent(s) { QuiescentTotals(s.threads); }
  }

  lemma StepReaches(s: State, e: Event)
    requires Reachable(s) && Enabled(s, e)
    ensures Reachable(Step(s, e))
  {
    var run :| IsRun(s.lifetime, run) && After(s.lifetime, run) == s;
    assert (run + [e])[..|run + [e]| - 1] == run;
    StepKeepsLifetime(s, e);
    assert IsRun(s.lifetime, run + [e]) && After(s.lifetime, run + [e]) == Step(s, e);
  }

  lemma InitReaches(lifetime: Lifetime)
    ensures Reachable(Init(lifetime))
  {
    assert IsRun(lifetime, []) && After(lifetime, []) == Init(lifetime);
  }

  lemma StepTo(s: State, e: Event) returns (s': State)
    requires Reachable(s) && Enabled(s, e)
    ensures Reachable(s') && s' == Step(s, e)
  {
    s' := Step(s, e);
    StepReaches(s, e);
  }

  /** The next access of the only thread, which stands at `pc`. */
  lemma GoAlone(s: State, pc: Pc) returns (s': State)
    requires Reachable(s) && s.threads == [pc] && pc != Idle && AssertionHolds(s, pc)
    ensures Reachable(s') && s' == Effect(s, pc, true).0.(threads := [Effect(s, pc, true).1])
  {
    hide Reachable;
    s' := StepTo(s, Go(0, true));
  }

  /** The only thread calls incStrong on an object that never had a strong reference. */
  lemma TakeFirst(s: State) returns (s': State)
    requires Reachable(s) && s.threads == [Idle] && s.strong == INITIAL_STRONG_VALUE && s.weak == 1
    ensures Reachable(s') && s' == s.(strong := 1, weak := 2, born := true, strongHeld := s.strongHeld + 1,
      h := s.h.(claims := s.h.claims + 1, unbiasings := s.h.unbiasings + 1, firstRefs := s.h.firstRefs + 1))
  {
    hide Reachable;
    s' := StepTo(s, Begin(0, IncStrong));
    assert s' == s.(weak := 2, born := true, threads := [IncAdd]);
    s' := GoAlone(s', IncAdd);
    assert s' == Claim(s.(strong := INITIAL_STRONG_VALUE + 1, weak := 2, born := true, threads := [IncUnbias]));
    s' := GoAlone(s', IncUnbias);
    s' := GoAlone(s', FirstRef);
  }

  /** The only thread calls decStrong with the last strong reference, keeping a weak one. */
  lemma DropLast(s: State) returns (s': State)
    requires Reachable(s) && s.lifetime == Strong && s.threads == [Idle]
    requires s.strong == 1 && s.weak == 2 && s.strongHeld == 1
    ensures Reachable(s') && s' == s.(strong := 0, weak := 1, strongHeld := 0,
      h := s.h.(lastRefs := s.h.lastRefs + 1, objDeletes := s.h.objDeletes + 1))
  {
    hide Reachable;
    s' := StepTo(s, Begin(0, DecStrong));
    s' := GoAlone(s', DecSub);
    assert s' == s.(strong := 0, strongHeld := 0, threads := [DecLast]);
    s' := GoAlone(s', DecLast);
    s' := GoAlone(s', DecFree);
    s' := GoAlone(s', WeakSub);
  }

  /** The only thread calls forceIncStrong when no strong reference is left. */
  lemma ForceBack(s: State) returns (s': State)
    requires Reachable(s) && s.threads == [Idle] && s.strong == 0 && s.weak == 1 && s.born
    ensures Reachable(s') && s' == s.(strong := 1, weak := 2, strongHeld := s.strongHeld + 1,
      h := s.h.(firstRefs := s.h.firstRefs + 1, revivals := s.h.revivals + 1))
  {
    hide Reachable;
    s' := StepTo(s, Begin(0, ForceIncStrong));
    s' := GoAlone(s', ForceAdd);
    s' := GoAlone(s', FirstRef);
  }

  /** Why StrongZeroIsFinalUnlessForced needs its right-hand side: one thread that keeps a weak reference, takes
      and drops the first strong one and then calls forceIncStrong holds a strong reference to an object
      already deleted; dropping that one deletes the object again. */
  lemma ForcedObjectIsDeletedTwice()
    ensures exists s :: Reachable(s) && s.lifetime == Strong && s.strongHeld == 1 && s.h.objDeletes == 1
    ensures exists s :: Reachable(s) && s.lifetime == Strong && s.h.objDeletes == 2
  {
    InitReaches(Strong);
    var s := StepTo(Init(Strong), Spawn);
    s := StepTo(s, Begin(0, IncWeak));
    s := TakeFirst(s);
    s := DropLast(s);
    s := ForceBack(s);
    var s' := DropLast(s);
  }
}
