/** The functions of RefBase.c as code: every function updates `mStrong` and `mWeak` access by access, other
    threads may run between any two accesses, and each access is a step of the machine of module RefBase, so
    everything proved there about all runs holds of these functions. */
module RefBaseCalls {
  import opened Sums
  import opened RefBase

  /** A RefBase object with its control block, seen by one client thread. */
  class Object {
    var mStrong: int
    var mWeak: int
    const mFlags: Lifetime
    ghost var machine: State
    ghost var strongMine: nat // strong references this thread holds
    ghost var weakMine: nat   // weak references this thread holds
    ghost var budget: nat     // accesses other threads still make and swaps that still fail for no reason

    ghost predicate Valid()
      reads this
    {
      && Reachable(machine)
      && machine.lifetime == mFlags && machine.strong == mStrong && machine.weak == mWeak
      && strongMine <= machine.strongHeld && weakMine <= machine.weakHeld
    }

    /** The calling thread is number `t` and stands at `pc`. */
    ghost predicate Stands(t: nat, pc: Pc)
      reads this
    {
      t < |machine.threads| && machine.threads[t] == pc
    }

    /** The block cannot be deleted under this thread, and has room for one more reference. */
    ghost predicate Alive()
      reads this
    {
      (strongMine > 0 || weakMine > 0 || !machine.born) && mWeak < MAX_COUNT
    }

    constructor (lifetime: Lifetime, ghost others: nat)
      ensures Valid() && Stands(0, Idle) && mFlags == lifetime
      ensures mStrong == INITIAL_STRONG_VALUE && mWeak == 0 && strongMine == weakMine == 0 && !machine.born
      ensures budget == others
    {
      mStrong, mWeak, mFlags := INITIAL_STRONG_VALUE, 0, lifetime;
      machine := Step(Init(lifetime), Spawn);
      strongMine, weakMine, budget := 0, 0, others;
      new;
      InitReaches(lifetime);
      StepReaches(Init(lifetime), Spawn);
    }

    /** Other threads run. They may take any steps, but they neither move this thread nor give away what it
        holds, they take finitely many steps during one call, and they keep the counts below MAX_COUNT. What they do
        is later than what was (RefBase.RunIsLater). */
    method Others(ghost t: nat)
      requires Valid() && t < |machine.threads|
      modifies this`mStrong, this`mWeak, this`machine, this`budget
      ensures Valid() && Stands(t, old(machine.threads[t]))
      ensures budget <= old(budget)
      ensures budget == old(budget) ==> machine == old(machine)
      ensures old(mWeak) < MAX_COUNT ==> mWeak < MAX_COUNT
      ensures Later(old(machine), machine)
    {
    }

    /** One access of this thread, which stands at `pc`: the counts become those of the machine's step. */
    method Access(ghost t: nat, ghost pc: Pc, ghost oracle: bool)
      requires Reachable(machine) && Stands(t, pc) && pc != Idle && AssertionHolds(machine, pc)
      modifies this`machine
      ensures Reachable(machine) && machine.lifetime == old(machine.lifetime) && Later(old(machine), machine)
      ensures var (s, pc') := Effect(old(machine), pc, oracle);
              && Stands(t, pc') && machine.strong == s.strong && machine.weak == s.weak
              && machine.strongHeld == s.strongHeld && machine.weakHeld == s.weakHeld && machine.born == s.born
    {
      StepReaches(machine, Go(t, oracle));
      StepKeepsLifetime(machine, Go(t, oracle));
      StepIsLater(machine, Go(t, oracle));
      machine := Step(machine, Go(t, oracle));
    }

    /** This thread enters a function. */
    method Enter(ghost t: nat, ghost op: Op)
      requires Reachable(machine) && Stands(t, Idle) && CanBegin(machine, op)
      modifies this`machine
      ensures Reachable(machine) && machine.lifetime == old(machine.lifetime) && Later(old(machine), machine)
      ensures var (s, pc') := BeginOp(old(machine), op);
              && Stands(t, pc') && machine.strong == s.strong && machine.weak == s.weak
              && machine.strongHeld == s.strongHeld && machine.weakHeld == s.weakHeld && machine.born == s.born
    {
      StepReaches(machine, Begin(t, op));
      StepKeepsLifetime(machine, Begin(t, op));
      StepIsLater(machine, Begin(t, op));
      machine := Step(machine, Begin(t, op));
    }

    /** A weak compare-and-swap of mStrong: it fails when the value is not `expected`, and may fail anyway.
        It reports the value it saw. */
    method SwapStrong(expected: int, ghost t: nat, ghost pc: Pc) returns (swapped: bool, seen: int)
      requires Valid() && Stands(t, pc) && (pc == TryCas(expected) || pc == TryBiasCas(expected))
      modifies this`mStrong, this`machine, this`budget
      ensures Valid() && seen == old(mStrong) && budget <= old(budget)
      ensures Stands(t, Effect(old(machine), pc, swapped).1) && machine.weak == old(machine.weak)
      ensures swapped ==> seen == expected && mStrong == expected + 1
      ensures swapped ==> machine.strongHeld == Effect(old(machine), pc, true).0.strongHeld
      ensures !swapped ==> mStrong == seen && machine.strongHeld == old(machine.strongHeld)
      ensures !swapped ==> seen != expected || budget < old(budget)
      ensures Later(old(machine), machine)
    {
      hide Reachable;
      seen := mStrong;
      swapped := seen == expected;
      if swapped { mStrong := mStrong + 1; }
      Access(t, pc, swapped);
    }

    method SwapWeak(expected: int, ghost t: nat) returns (swapped: bool, seen: int)
      requires Valid() && Stands(t, WeakCas(expected)) && mWeak < MAX_COUNT
      modifies this`mWeak, this`machine, this`budget
      ensures Valid() && seen == old(mWeak) && budget <= old(budget)
      ensures Stands(t, Effect(old(machine), WeakCas(expected), swapped).1)
      ensures swapped ==> seen == expected && mWeak == expected + 1 && machine.weakHeld == old(machine.weakHeld) + 1
      ensures !swapped ==> mWeak == seen && (seen != expected || budget < old(budget))
    {
      hide Reachable;
      seen := mWeak;
      swapped := seen == expected;
      if swapped { mWeak := mWeak + 1; }
      Access(t, WeakCas(expected), swapped);
    }

    /** Not ok: the assertion on the old count failed, and the process is gone. */
    method IncStrong(ghost t: nat) returns (ok: bool)
      requires Valid() && Stands(t, Idle) && Alive()
      modifies this
      ensures old(strongMine) > 0 ==> ok
      ensures ok ==> Valid() && Stands(t, Idle) && strongMine == old(strongMine) + 1 && weakMine == old(weakMine)
      ensures !ok ==> mStrong == 1
      ensures old(budget) == 0 ==> budget == 0 && mWeak == old(mWeak) + 1 && (ok <==> old(mStrong) > 0)
      ensures old(budget) == 0 ==> mStrong == if old(mStrong) == INITIAL_STRONG_VALUE then 1 else old(mStrong) + 1
    {
      hide Reachable;
      HeldMeansTouchable();
      mWeak := mWeak + 1;
      Enter(t, Op.IncStrong);
      Others(t);
      HeldMeansStrong();
      CountNotNegative();
      var c := mStrong;
      mStrong := mStrong + 1;
      if c <= 0 {
        return false;
      }
      Access(t, IncAdd, true);
      if c == INITIAL_STRONG_VALUE {
        Others(t);
        BiasStillThere(t, IncUnbias); // the check of RefBase.c:357
        mStrong := mStrong - INITIAL_STRONG_VALUE;
        Access(t, IncUnbias, true);
        Announce(t);
      }
      strongMine := strongMine + 1;
      ok := true;
    }

    method IncStrongRequireStrong(ghost t: nat)
      requires Valid() && Stands(t, Idle) && Alive() && strongMine > 0
      modifies this
      ensures Valid() && Stands(t, Idle) && strongMine == old(strongMine) + 1 && weakMine == old(weakMine)
      ensures old(budget) == 0 ==> budget == 0 && mWeak == old(mWeak) + 1 && mStrong == old(mStrong) + 1
    {
      hide Reachable;
      HeldMeansTouchable();
      mWeak := mWeak + 1;
      Enter(t, Op.IncStrongRequireStrong);
      Others(t);
      HeldMeansStrong();
      mStrong := mStrong + 1;
      Access(t, ReqAdd, true);
      strongMine := strongMine + 1;
    }

    method ForceIncStrong(ghost t: nat)
      requires Valid() && Stands(t, Idle) && Alive()
      modifies this
      ensures Valid() && Stands(t, Idle) && strongMine == old(strongMine) + 1 && weakMine == old(weakMine)
      ensures old(budget) == 0 ==> budget == 0 && mWeak == old(mWeak) + 1
      ensures old(budget) == 0 ==> mStrong == if old(mStrong) == INITIAL_STRONG_VALUE then 1 else old(mStrong) + 1
    {
      hide Reachable;
      HeldMeansTouchable();
      mWeak := mWeak + 1;
      Enter(t, Op.ForceIncStrong);
      Others(t);
      var c := mStrong;
      mStrong := mStrong + 1;
      Access(t, ForceAdd, true);
      if c == INITIAL_STRONG_VALUE {
        Others(t);
        mStrong := mStrong - INITIAL_STRONG_VALUE;
        Access(t, ForceUnbias, true);
      }
      if c == INITIAL_STRONG_VALUE || c == 0 { Announce(t); }
      strongMine := strongMine + 1;
    }

    /** Call onFirstRef. */
    method Announce(ghost t: nat)
      requires Valid() && Stands(t, FirstRef)
      modifies this`mStrong, this`mWeak, this`machine, this`budget
      ensures Valid() && Stands(t, Idle) && budget <= old(budget) && machine.strongHeld > strongMine
      ensures old(budget) == 0 ==> mWeak == old(mWeak) && mStrong == old(mStrong)
    {
      hide Reachable;
      Others(t);
      Access(t, FirstRef, true);
    }

    method DecStrong(ghost t: nat)
      requires Valid() && Stands(t, Idle) && strongMine > 0
      modifies this
      ensures Valid() && Stands(t, Idle) && strongMine == old(strongMine) - 1 && weakMine == old(weakMine)
      ensures old(budget) == 0 ==> budget == 0 && mWeak == old(mWeak) - 1 && mStrong == old(mStrong) - 1
    {
      hide Reachable;
      Enter(t, Op.DecStrong);
      strongMine := strongMine - 1;
      Others(t);
      SubtractIsSafe(t, DecSub);
      var c := mStrong;
      mStrong := mStrong - 1;
      Access(t, DecSub, true);
      if c == 1 { LastStrong(t); }
      WeakTail(t);
    }

    /** decStrong dropped the last strong reference: onLastStrongRef, then perhaps RefBase_delete. */
    method LastStrong(ghost t: nat)
      requires Valid() && Stands(t, DecLast)
      modifies this`mStrong, this`mWeak, this`machine, this`budget
      ensures Valid() && Stands(t, WeakSub) && budget <= old(budget)
      ensures old(budget) == 0 ==> mWeak == old(mWeak) && mStrong == old(mStrong)
    {
      hide Reachable;
      Others(t);
      Access(t, DecLast, true);
      Others(t);
      Access(t, DecFree, true);
    }

    /** decWeak, for a thread that has given up the reference. */
    method WeakTail(ghost t: nat)
      requires Valid() && Stands(t, WeakSub)
      modifies this`mStrong, this`mWeak, this`machine, this`budget
      ensures Valid() && Stands(t, Idle) && budget <= old(budget) && Later(old(machine), machine)
      ensures old(budget) == 0 ==> mWeak == old(mWeak) - 1 && mStrong == old(mStrong)
    {
      hide Reachable;
      Others(t);
      SubtractIsSafe(t, WeakSub);
      var c := mWeak;
      mWeak := mWeak - 1;
      Access(t, WeakSub, true);
      if c == 1 {
        Others(t);
        Access(t, WeakLast, true);
      }
    }

    method DecWeak(ghost t: nat)
      requires Valid() && Stands(t, Idle) && weakMine > 0
      modifies this
      ensures Valid() && Stands(t, Idle) && weakMine == old(weakMine) - 1 && strongMine == old(strongMine)
      ensures old(budget) == 0 ==> budget == 0 && mWeak == old(mWeak) - 1 && mStrong == old(mStrong)
    {
      hide Reachable;
      Enter(t, Op.DecWeak);
      weakMine := weakMine - 1;
      WeakTail(t);
    }

    method IncWeak(ghost t: nat)
      requires Valid() && Stands(t, Idle) && Alive()
      modifies this
      ensures Valid() && Stands(t, Idle) && weakMine == old(weakMine) + 1 && strongMine == old(strongMine)
      ensures mWeak == old(mWeak) + 1 && mStrong == old(mStrong) && budget == old(budget)
    {
      hide Reachable;
      HeldMeansTouchable();
      mWeak := mWeak + 1;
      Enter(t, Op.IncWeak);
      weakMine := weakMine + 1;
    }

    /** `accepts` is what onIncStrongAttempted answers. Among any steps of other threads it succeeds for a thread that
        holds a reference and for an object that accepts, and on an object of strong lifetime it fails only when that
        is dead. */
    method AttemptIncStrong(ghost t: nat, accepts: bool) returns (ok: bool)
      requires Valid() && Stands(t, Idle) && Alive()
      modifies this
      ensures Valid() && Stands(t, Idle) && weakMine == old(weakMine)
      ensures strongMine == if ok then old(strongMine) + 1 else old(strongMine)
      ensures old(strongMine) > 0 || (mFlags == Weak && accepts) ==> ok
      ensures mFlags == Strong && !ok ==> mStrong == 0 || old(machine.h.revivals) < machine.h.revivals
      ensures old(budget) == 0 && mFlags == Strong ==> (ok <==> old(mStrong) > 0)
      ensures old(budget) == 0 && mFlags == Weak ==>
                (ok <==> accepts || (old(mStrong) > 0 && old(mStrong) != INITIAL_STRONG_VALUE))
      ensures old(budget) == 0 ==> mWeak == if ok then old(mWeak) + 1 else old(mWeak)
      ensures old(budget) == 0 ==>
                mStrong == if !ok then old(mStrong)
                           else if old(mStrong) == INITIAL_STRONG_VALUE then 1
                           else old(mStrong) + 1
    {
      hide Reachable;
      HeldMeansTouchable();
      mWeak := mWeak + 1;
      Enter(t, Op.AttemptIncStrong);
      Others(t);
      var swapped, cur := FirstLoop(t);
      if !swapped {
        swapped, cur := SlowPath(t, cur, accepts);
        if !swapped {
          WeakTail(t);
          return false;
        }
      }
      if cur == INITIAL_STRONG_VALUE { RemoveBias(t); }
      strongMine := strongMine + 1;
      ok := true;
    }

    /** attemptIncStrong past its first loop, which found the count at zero or at the bias. */
    method SlowPath(ghost t: nat, first: int, accepts: bool) returns (swapped: bool, cur: int)
      requires Valid() && Stands(t, TrySlow(first)) && mStrong == first >= 0
      modifies this`mStrong, this`mWeak, this`machine, this`budget
      ensures Valid() && budget <= old(budget)
      ensures !swapped ==> Stands(t, WeakSub)
      ensures swapped ==> Stands(t, if cur == INITIAL_STRONG_VALUE then TryUnbias else Idle)
      ensures swapped && cur != INITIAL_STRONG_VALUE ==> machine.strongHeld > strongMine
      ensures mFlags == Weak ==> swapped == accepts
      ensures mFlags == Strong && !swapped ==> mStrong == 0 || old(machine.h.revivals) < machine.h.revivals
      ensures mFlags == Strong ==> Later(old(machine), machine)
      ensures old(budget) == 0 ==> mWeak == old(mWeak) && mStrong == first + (if swapped then 1 else 0)
      ensures old(budget) == 0 ==> (swapped ==> cur == first) && (mFlags == Strong ==> (swapped <==> first > 0))
    {
      hide Reachable, Effect;
      Others(t);
      if mFlags == Strong {
        swapped, cur := BiasLoop(t, first);
      } else {
        swapped, cur := AskAndAdd(t, first, accepts);
      }
    }

    /** attemptIncStrong took the first reference. */
    method RemoveBias(ghost t: nat)
      requires Valid() && Stands(t, TryUnbias)
      modifies this`mStrong, this`mWeak, this`machine, this`budget
      ensures Valid() && Stands(t, Idle) && budget <= old(budget) && machine.strongHeld > strongMine
      ensures old(budget) == 0 ==> mWeak == old(mWeak) && mStrong == old(mStrong) - INITIAL_STRONG_VALUE
    {
      hide Reachable;
      Others(t);
      mStrong := mStrong - INITIAL_STRONG_VALUE;
      Access(t, TryUnbias, true);
    }

    /** The first loop of attemptIncStrong: the object is referenced and its bias is gone, or is being removed. */
    method FirstLoop(ghost t: nat) returns (swapped: bool, cur: int)
      requires Valid() && Stands(t, TryLoad)
      modifies this`mStrong, this`mWeak, this`machine, this`budget
      ensures Valid() && budget <= old(budget)
      ensures swapped ==> Stands(t, Idle) && cur > 0 && cur != INITIAL_STRONG_VALUE && machine.strongHeld > strongMine
      ensures !swapped ==> Stands(t, TrySlow(cur)) && mStrong == cur && (cur == 0 || cur == INITIAL_STRONG_VALUE)
      ensures (strongMine > 0 ==> swapped) && Later(old(machine), machine)
      ensures old(budget) == 0 ==>
                cur == old(mStrong) && mWeak == old(mWeak) && mStrong == cur + (if swapped then 1 else 0)
      ensures old(budget) == 0 ==> (swapped <==> cur > 0 && cur != INITIAL_STRONG_VALUE)
    {
      hide Reachable;
      HeldMeansStrong();
      CountNotNegative();
      cur := mStrong;
      Access(t, TryLoad, true);
      swapped := false;
      while cur > 0 && cur != INITIAL_STRONG_VALUE
        invariant Valid() && Stands(t, TryLoop(cur)) && mStrong == cur >= 0 && !swapped && budget <= old(budget)
        invariant strongMine > 0 ==> cur > 0 && cur != INITIAL_STRONG_VALUE
        invariant Later(old(machine), machine)
        invariant old(budget) == 0 ==> mStrong == old(mStrong) && mWeak == old(mWeak)
        decreases budget
      {
        Others(t);
        HeldMeansStrong();
        CountNotNegative();
        swapped, cur := SwapStrong(cur, t, TryCas(cur));
        if swapped { break; }
      }
    }

    /** attemptIncStrong, weak lifetime: ask the object, add, and compensate when it was referenced after all. */
    method AskAndAdd(ghost t: nat, first: int, accepts: bool) returns (added: bool, cur: int)
      requires Valid() && Stands(t, TrySlow(first)) && mFlags == Weak
      modifies this`mStrong, this`mWeak, this`machine, this`budget
      ensures Valid() && budget <= old(budget) && added == accepts
      ensures !added ==> Stands(t, WeakSub)
      ensures added ==> Stands(t, if cur == INITIAL_STRONG_VALUE then TryUnbias else Idle)
      ensures added && cur != INITIAL_STRONG_VALUE ==> machine.strongHeld > strongMine
      ensures old(budget) == 0 ==> mWeak == old(mWeak) && mStrong == old(mStrong) + (if added then 1 else 0)
      ensures old(budget) == 0 && added ==> cur == old(mStrong)
    {
      hide Reachable;
      added, cur := accepts, first;
      Access(t, TrySlow(first), accepts);
      if accepts {
        Others(t);
        cur := mStrong;
        mStrong := mStrong + 1;
        Access(t, TryAdd, true);
        if cur != 0 && cur != INITIAL_STRONG_VALUE {
          Others(t);
          Access(t, TryCompensate, true);
        }
      }
    }

    /** attemptIncStrong, strong lifetime: a zero count is final; otherwise the second loop. */
    method BiasLoop(ghost t: nat, first: int) returns (swapped: bool, cur: int)
      requires Valid() && Stands(t, TrySlow(first)) && mFlags == Strong
      modifies this`mStrong, this`mWeak, this`machine, this`budget
      ensures Valid() && budget <= old(budget)
      ensures !swapped ==> Stands(t, WeakSub) && (first > 0 ==> mStrong == 0)
      ensures Later(old(machine), machine)
      ensures swapped ==> cur > 0 && Stands(t, if cur == INITIAL_STRONG_VALUE then TryUnbias else Idle)
      ensures swapped && cur != INITIAL_STRONG_VALUE ==> machine.strongHeld > strongMine
      ensures old(budget) == 0 ==> mWeak == old(mWeak) && mStrong == old(mStrong) + (if swapped then 1 else 0)
      ensures old(budget) == 0 && old(mStrong) == first ==> cur == first && (swapped <==> first > 0)
    {
      hide Reachable;
      swapped, cur := false, first;
      Access(t, TrySlow(first), true);
      ghost var stale := true;
      while cur > 0
        invariant Valid() && !swapped && budget <= old(budget)
        invariant Stands(t, if cur <= 0 then WeakSub else TryBiasCas(cur))
        invariant old(budget) == 0 ==> mStrong == old(mStrong) && mWeak == old(mWeak)
        invariant old(budget) == 0 && old(mStrong) == first ==> cur == first
        invariant (if stale then cur == first else mStrong == cur >= 0) && Later(old(machine), machine)
        decreases budget, stale
      {
        Others(t);
        CountNotNegative();
        swapped, cur := SwapStrong(cur, t, TryBiasCas(cur));
        if swapped { break; }
        stale := false;
      }
    }

    /** For a caller that may hold nothing at all: it fails when no reference is left. */
    method AttemptIncWeak(ghost t: nat) returns (ok: bool)
      requires Valid() && Stands(t, Idle) && mWeak < MAX_COUNT
      modifies this
      ensures Valid() && Stands(t, Idle) && strongMine == old(strongMine)
      ensures weakMine == if ok then old(weakMine) + 1 else old(weakMine)
      ensures (old(strongMine) + old(weakMine) > 0 ==> ok) && (!ok ==> mWeak == 0)
      ensures old(budget) == 0 ==>
                (ok <==> old(mWeak) > 0) && mWeak == (if ok then old(mWeak) + 1 else 0) && mStrong == old(mStrong)
    {
      hide Reachable;
      HeldMeansCounted();
      var cur := mWeak;
      Enter(t, Op.AttemptIncWeak);
      ok := false;
      while cur > 0
        invariant Valid() && !ok && Stands(t, if cur > 0 then WeakCas(cur) else Idle) && 0 <= mWeak == cur < MAX_COUNT
        invariant strongMine == old(strongMine) && weakMine == old(weakMine) && budget <= old(budget)
        invariant strongMine + weakMine > 0 ==> cur > 0
        invariant old(budget) == 0 ==> mWeak == old(mWeak) && mStrong == old(mStrong)
        decreases budget
      {
        Others(t);
        HeldMeansCounted();
        ok, cur := SwapWeak(cur, t);
        if ok { break; }
      }
      if ok { weakMine := weakMine + 1; }
    }

    /** A held reference shows in the counts. */
    lemma HeldMeansStrong()
      requires Valid()
      ensures strongMine > 0 ==> mStrong > 0 && mStrong != INITIAL_STRONG_VALUE
    {
      if strongMine > 0 { HolderMayIncrement(machine); }
    }

    lemma CountNotNegative()
      requires Valid()
      ensures mStrong >= 0
    {
      CountsMatchLedger(machine);
    }

    lemma HeldMeansCounted()
      requires Valid()
      ensures strongMine + weakMine <= mWeak
    {
      CountsMatchLedger(machine);
      TotalsOrdered(machine.threads);
    }

    lemma HeldMeansTouchable()
      requires Valid() && Alive()
      ensures CanTouch(machine)
    {
      HeldMeansCounted();
    }

    /** The thread that has still to remove the bias finds the count above it. */
    lemma BiasStillThere(t: nat, pc: Pc)
      requires Valid() && Stands(t, pc) && UnbiasOf(pc) == 1
      ensures mStrong > INITIAL_STRONG_VALUE
    {
      BiasIsRemovedOnce(machine);
      assert UnbiasOf(machine.threads[t]) == 1;
    }

    /** The checks before the decrements. */
    lemma SubtractIsSafe(t: nat, pc: Pc)
      requires Valid() && Stands(t, pc)
      ensures pc == DecSub ==> !BadStrong(mStrong)
      ensures pc == WeakSub ==> !BadWeak(mWeak)
    {
      DecrementsAreSafe(machine, t);
    }
  }
}
