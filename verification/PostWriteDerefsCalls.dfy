/** The functions that keep temporary references (IPCThreadState.c, BpBinder.c) as code over the fields of the proxy and
    of the pool threads; every access is a step of the machine of module PostWriteDerefs. */
module PostWriteDerefsCalls {
  import opened PostWriteDerefs

  predicate ByOther(e: Event, t: nat) { e == Spawn || e.t != t }

  /** Other threads than `t` have made any steps. */
  ghost predicate Interfered(s: State, s': State, t: nat) {
    exists es: seq<Event> :: IsRun(s, es) && After(s, es) == s' && forall i :: 0 <= i < |es| ==> ByOther(es[i], t)
  }

  lemma NoInterference(s: State, t: nat)
    ensures Interfered(s, s, t)
  {
    assert IsRun(s, []) && After(s, []) == s;
  }

  lemma OtherStep(s: State, e: Event, t: nat)
    requires Enabled(s, e) && ByOther(e, t) && t < |s.loopers|
    ensures var s' := Step(s, e);
            |s.loopers| <= |s'.loopers| && s'.loopers[t] == s.loopers[t] && s.driver <= s'.driver
  {
  }

  lemma {:induction false} OtherRun(s: State, es: seq<Event>, t: nat)
    requires IsRun(s, es) && t < |s.loopers| && forall i :: 0 <= i < |es| ==> ByOther(es[i], t)
    ensures var s' := After(s, es);
            |s.loopers| <= |s'.loopers| && s'.loopers[t] == s.loopers[t] && s.driver <= s'.driver
    decreases es
  {
    hide Enabled, Step;
    if es != [] {
      OtherStep(s, es[0], t);
      OtherRun(Step(s, es[0]), es[1..], t);
    }
  }

  /** What no other thread can change: this thread's buffer and vectors, and what the driver has consumed. */
  lemma OthersLeave(s: State, s': State, t: nat)
    requires Reachable(s) && Interfered(s, s', t) && t < |s.loopers|
    ensures Reachable(s') && |s.loopers| <= |s'.loopers| && s'.loopers[t] == s.loopers[t] && s.driver <= s'.driver
  {
    hide Reachable;
    var es :| IsRun(s, es) && After(s, es) == s' && forall i :: 0 <= i < |es| ==> ByOther(es[i], t);
    OtherRun(s, es, t);
    StillReachable(s, es);
  }

  class Pool {
    var strong: nat              // the proxy's strong count
    var weakTemps: nat
    var out: seq<seq<Command>>   // the threads' out-buffers
    var mPostWriteStrongDerefs: seq<nat>
    var mPostWriteWeakDerefs: seq<nat>
    var driver: seq<Command>
    ghost var machine: State
    ghost const quiet: bool      // no other thread runs

    ghost predicate Valid()
      reads this
    {
      && Reachable(machine) && strong == machine.strong && weakTemps == machine.weakTemps && driver == machine.driver
      && |out| == |mPostWriteStrongDerefs| == |mPostWriteWeakDerefs| == |machine.loopers|
      && forall t :: 0 <= t < |out| ==>
           && out[t] == machine.loopers[t].out
           && mPostWriteStrongDerefs[t] == machine.loopers[t].strongDerefs
           && mPostWriteWeakDerefs[t] == machine.loopers[t].weakDerefs
    }

    /** Thread `t` is between calls, with nothing left to drop. */
    ghost predicate AtRest(t: nat)
      reads this
    {
      && t < |machine.loopers| && machine.loopers[t].pc == Ready
      && machine.loopers[t].dropping == machine.loopers[t].droppingWeak == 0
    }

    constructor (ghost quiet: bool)
      ensures Valid() && strong == weakTemps == 0 && out == [] && driver == [] && machine == Init()
    {
      strong, weakTemps, out, mPostWriteStrongDerefs, mPostWriteWeakDerefs, driver := 0, 0, [], [], [], [];
      machine := Init();
      this.quiet := quiet;
      new;
      assert IsRun(Init(), []) && After(Init(), []) == Init();
    }

    /** A new thread joins the pool. */
    method JoinThreadPool() returns (t: nat)
      requires Valid()
      modifies this
      ensures Valid() && AtRest(t) && t == |old(out)| && out == old(out) + [[]] && strong == old(strong)
    {
      hide Reachable;
      StepReaches(machine, Spawn);
      t := |out|;
      out := out + [[]];
      mPostWriteStrongDerefs := mPostWriteStrongDerefs + [0];
      mPostWriteWeakDerefs := mPostWriteWeakDerefs + [0];
      machine := Step(machine, Spawn);
    }

    /** Other threads make any steps. */
    method Others(ghost t: nat)
      requires Valid() && t < |machine.loopers|
      modifies this
      ensures Valid() && Interfered(old(machine), machine, t) && (quiet ==> machine == old(machine))
    {
      NoInterference(machine, t);
    }

    /** A client takes a strong reference with incStrong or forceIncStrong; the one that finds none runs onFirstRef. */
    method IncStrong(t: nat) returns (first: bool)
      requires Valid() && AtRest(t)
      modifies this
      ensures Valid() && AtRest(t) && (first <==> old(strong) == 0)
      ensures t < |old(out)| <= |out| && out[t] == if first then old(out[t]) + [Acquire] else old(out[t])
      ensures quiet ==> strong == old(strong) + (if first then 2 else 1) && machine.held == old(machine.held) + 1
    {
      hide Reachable;
      StepReaches(machine, Take(t));
      first := strong == 0;
      strong := strong + 1;
      machine := Step(machine, Take(t));
      if first {
        ghost var s := machine;
        Others(t);
        OthersLeave(s, machine, t);
        IncStrongHandle(t);
      }
    }

    /** incStrongHandle on a looper: write the command and keep the proxy until the driver has it. */
    method IncStrongHandle(t: nat)
      requires Valid() && t < |machine.loopers| && machine.loopers[t].pc == OwesAcquire
      modifies this
      ensures Valid() && machine == Step(old(machine), WriteAcquire(t))
      ensures t < |old(out)| == |out| && out[t] == old(out[t]) + [Acquire] && strong == old(strong) + 1
      ensures mPostWriteStrongDerefs[t] == old(mPostWriteStrongDerefs[t]) + 1 && driver == old(driver)
    {
      hide Reachable;
      StepReaches(machine, WriteAcquire(t));
      out := out[t := out[t] + [Acquire]];
      strong := strong + 1;
      mPostWriteStrongDerefs := mPostWriteStrongDerefs[t := mPostWriteStrongDerefs[t] + 1];
      machine := Step(machine, WriteAcquire(t));
    }

    /** A client drops a strong reference; the last one runs onLastStrongRef. */
    method DecStrong(t: nat) returns (last: bool)
      requires Valid() && AtRest(t) && machine.held > 0
      modifies this
      ensures Valid() && AtRest(t) && (last <==> old(strong) == 1)
      ensures t < |old(out)| <= |out| && out[t] == if last then old(out[t]) + [Release] else old(out[t])
      ensures quiet ==> strong == old(strong) - 1 && machine.held == old(machine.held) - 1
    {
      hide Reachable;
      HeldIsCounted();
      StepReaches(machine, PostWriteDerefs.Drop(t));
      last := strong == 1;
      strong := strong - 1;
      machine := Step(machine, PostWriteDerefs.Drop(t));
      if last {
        ghost var s := machine;
        Others(t);
        OthersLeave(s, machine, t);
        DecStrongHandle(t);
      }
    }

    /** decStrongHandle. */
    method DecStrongHandle(t: nat)
      requires Valid() && t < |machine.loopers| && machine.loopers[t].pc == OwesRelease
      modifies this
      ensures Valid() && machine == Step(old(machine), WriteRelease(t))
      ensures t < |old(out)| == |out| && out[t] == old(out[t]) + [Release] && strong == old(strong)
    {
      hide Reachable;
      StepReaches(machine, WriteRelease(t));
      out := out[t := out[t] + [Release]];
      machine := Step(machine, WriteRelease(t));
    }

    /** incWeakHandle on a looper, from the constructor of a proxy. */
    method IncWeakHandle(t: nat)
      requires Valid() && AtRest(t)
      modifies this
      ensures Valid() && machine == Step(old(machine), PostWriteDerefs.NewProxy(t))
      ensures t < |old(out)| == |out| && out[t] == old(out[t]) + [IncRefs] && weakTemps == old(weakTemps) + 1
      ensures mPostWriteWeakDerefs[t] == old(mPostWriteWeakDerefs[t]) + 1 && strong == old(strong)
    {
      hide Reachable;
      StepReaches(machine, PostWriteDerefs.NewProxy(t));
      out := out[t := out[t] + [IncRefs]];
      weakTemps := weakTemps + 1;
      mPostWriteWeakDerefs := mPostWriteWeakDerefs[t := mPostWriteWeakDerefs[t] + 1];
      machine := Step(machine, PostWriteDerefs.NewProxy(t));
    }

    /** talkWithDriver with something to write: the driver takes the whole buffer, and only then are the temporary
        references of exactly the commands in it dropped, once each. */
    method TalkWithDriver(t: nat)
      requires Valid() && AtRest(t)
      modifies this
      ensures Valid() && AtRest(t) && t < |old(out)| <= |out| && old(driver) + old(out[t]) <= driver
      ensures mPostWriteStrongDerefs[t] == mPostWriteWeakDerefs[t] == 0
      ensures quiet ==> strong == old(strong) - Count(old(out[t]), Acquire)
      ensures quiet ==> weakTemps == old(weakTemps) - Count(old(out[t]), IncRefs) && machine.held == old(machine.held)
    {
      hide Reachable, Interfered, Count;
      VectorsMatch(t);
      var strongs, weaks := Consume(t);
      var i := 0;
      while i < weaks
        invariant 0 <= i <= weaks && Valid() && t < |machine.loopers| && |out| >= old(|out|)
        invariant machine.loopers[t] == Looper(Ready, [], 0, 0, strongs, weaks - i)
        invariant old(driver) + old(out[t]) <= driver
        invariant quiet ==>
                    strong == old(strong) && weakTemps == old(weakTemps) - i && machine.held == old(machine.held)
      {
        ghost var s := machine;
        Others(t);
        OthersLeave(s, machine, t);
        DropWeak(t);
        i := i + 1;
      }
      i := 0;
      while i < strongs
        invariant 0 <= i <= strongs && Valid() && t < |machine.loopers| && |out| >= old(|out|)
        invariant var l := machine.loopers[t];
                  l.pc == Ready && l.dropping == strongs - i && l.strongDerefs == l.weakDerefs == l.droppingWeak == 0
        invariant old(driver) + old(out[t]) <= driver
        invariant quiet ==>
                    && strong == old(strong) - i && weakTemps == old(weakTemps) - weaks
                    && machine.held == old(machine.held)
      {
        ghost var s := machine;
        Others(t);
        OthersLeave(s, machine, t);
        DropStrong(t);
        i := i + 1;
      }
    }

    /** The write part of talkWithDriver: the references to drop are those of the commands consumed. */
    method Consume(t: nat) returns (strongs: nat, weaks: nat)
      requires Valid() && AtRest(t)
      modifies this
      ensures Valid() && machine == Step(old(machine), Flush(t)) && t < |old(out)| == |out|
      ensures driver == old(driver) + old(out[t])
      ensures strongs == old(mPostWriteStrongDerefs[t]) && weaks == old(mPostWriteWeakDerefs[t])
    {
      hide Reachable;
      StepReaches(machine, Flush(t));
      strongs, weaks := mPostWriteStrongDerefs[t], mPostWriteWeakDerefs[t];
      driver, out := driver + out[t], out[t := []];
      mPostWriteStrongDerefs := mPostWriteStrongDerefs[t := 0];
      mPostWriteWeakDerefs := mPostWriteWeakDerefs[t := 0];
      machine := Step(machine, Flush(t));
    }

    /** One turn of processPostWriteDerefs' first loop. */
    method DropWeak(t: nat)
      requires Valid() && t < |machine.loopers| && machine.loopers[t].pc == Ready && machine.loopers[t].droppingWeak > 0
      modifies this
      ensures Valid() && machine == Step(old(machine), DropWeakTemp(t)) && weakTemps == old(weakTemps) - 1
    {
      hide Reachable;
      StepReaches(machine, DropWeakTemp(t));
      WeakIsCounted(t);
      weakTemps := weakTemps - 1;
      machine := Step(machine, DropWeakTemp(t));
    }

    /** One turn of its second loop; the last reference runs onLastStrongRef. */
    method DropStrong(t: nat)
      requires Valid() && t < |machine.loopers| && machine.loopers[t].pc == Ready
      requires machine.loopers[t].droppingWeak == 0 < machine.loopers[t].dropping
      modifies this
      ensures Valid() && t < |machine.loopers| && |out| >= old(|out|) && old(driver) <= driver
      ensures var l := old(machine.loopers[t]);
              var released := if old(strong) == 1 then [Release] else [];
              machine.loopers[t] == l.(dropping := l.dropping - 1, out := l.out + released)
      ensures quiet ==> strong == old(strong) - 1 && weakTemps == old(weakTemps) && machine.held == old(machine.held)
    {
      hide Reachable;
      DroppingIsCounted(t);
      StepReaches(machine, DropTemp(t));
      var last := strong == 1;
      strong := strong - 1;
      machine := Step(machine, DropTemp(t));
      if last {
        ghost var s := machine;
        Others(t);
        OthersLeave(s, machine, t);
        DecStrongHandle(t);
      }
    }

    lemma HeldIsCounted()
      requires Valid()
      ensures strong >= machine.held
    {
      ReachableInv(machine);
      NotNegative(machine.loopers);
    }

    lemma DroppingIsCounted(t: nat)
      requires Valid() && t < |machine.loopers|
      ensures strong >= machine.loopers[t].dropping
    {
      ReachableInv(machine);
      TotalsMove(machine.loopers, t, machine.loopers[t]);
    }

    lemma WeakIsCounted(t: nat)
      requires Valid() && t < |machine.loopers|
      ensures weakTemps >= machine.loopers[t].droppingWeak
    {
      ReachableInv(machine);
      TotalsMove(machine.loopers, t, machine.loopers[t]);
    }

    /** The vectors hold one entry for each command that waits. */
    lemma VectorsMatch(t: nat)
      requires Valid() && t < |out|
      ensures mPostWriteStrongDerefs[t] == Count(out[t], Acquire) && mPostWriteWeakDerefs[t] == Count(out[t], IncRefs)
    {
      ReachableInv(machine);
      assert LooperInv(machine.loopers[t]);
    }
  }

  lemma NotNegative(ls: seq<Looper>)
    ensures Positive(TotalsOf(ls))
  {
    if ls != [] { TotalsMove(ls, 0, ls[0]); }
  }
}
