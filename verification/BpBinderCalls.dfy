/** The functions of BpBinder.c as code: every locked section and every report is a step of the machine of module
    BpBinder, so everything proved there about all runs holds of these functions. */
module BpBinderCalls {
  import opened BpBinder
  import opened Sums

  predicate ByOther(e: Event, t: nat) { e == Spawn || e.t != t }

  /** Other threads than `t` have made any steps. */
  ghost predicate Interfered(s: State, s': State, t: nat) {
    exists es: seq<Event> :: IsRun(s, es) && After(s, es) == s' && forall i :: 0 <= i < |es| ==> ByOther(es[i], t)
  }

  lemma NoInterference(s: State, t: nat)
    ensures Interfered(s, s, t)
  {
    assert IsRun(s, []) && After(s, []) == s;
  }

  lemma OtherStep(s: State, e: Event, t: nat)
    requires Enabled(s, e) && ByOther(e, t) && t < |s.threads|
    ensures var s' := Step(s, e);
            t < |s'.threads| && s'.threads[t] == s.threads[t] && (s.sent ==> s'.sent) && (!s.alive ==> !s'.alive)
  {
    hide FirstMatch, Mark, Bump;
  }

  lemma {:induction false} OtherRun(s: State, es: seq<Event>, t: nat)
    requires IsRun(s, es) && t < |s.threads| && forall i :: 0 <= i < |es| ==> ByOther(es[i], t)
    ensures var s' := After(s, es);
            t < |s'.threads| && s'.threads[t] == s.threads[t] && (s.sent ==> s'.sent) && (!s.alive ==> !s'.alive)
    decreases es
  {
    hide Enabled, Step;
    if es != [] {
      OtherStep(s, es[0], t);
      OtherRun(Step(s, es[0]), es[1..], t);
    }
  }

  /** What no other thread can change: where this thread stands, a sent obituary, a death. */
  lemma OthersLeave(s: State, s': State, t: nat)
    requires Reachable(s) && Interfered(s, s', t) && t < |s.threads|
    ensures Reachable(s') && t < |s'.threads| && s'.threads[t] == s.threads[t]
    ensures (s.sent ==> s'.sent) && (!s.alive ==> !s'.alive)
  {
    hide Reachable;
    var es :| IsRun(s, es) && After(s, es) == s' && forall i :: 0 <= i < |es| ==> ByOther(es[i], t);
    OtherRun(s, es, t);
    StillReachable(s, es);
  }

  class Proxy {
    var mAlive: bool
    var mObitsSent: bool
    var mObituaries: Option<seq<Obituary>>
    var links: nat      // accepted linkToDeath calls, which number the links
    var requests: nat
    var clears: nat
    var clearDones: nat
    var reports: nat
    var weakRefs: int
    ghost var machine: State
    ghost const quiet: bool // no other thread runs

    ghost predicate Valid()
      reads this
    {
      && Reachable(machine)
      && machine.alive == mAlive && machine.sent == mObitsSent && machine.list == mObituaries
      && |machine.fates| == links && machine.requests == requests && machine.clears == clears
      && machine.clearDones == clearDones && machine.reports == reports && machine.weakRefs == weakRefs
    }

    ghost predicate Stands(t: nat, pc: Pc)
      reads this
    {
      t < |machine.threads| && machine.threads[t] == pc
    }

    constructor (ghost quiet: bool)
      ensures Valid() && mAlive && !mObitsSent && mObituaries == None && links == 0 && Stands(0, Idle)
    {
      mAlive, mObitsSent, mObituaries := true, false, None;
      links, requests, clears, clearDones, reports, weakRefs := 0, 0, 0, 0, 0, 0;
      machine := Step(Init(), Spawn);
      this.quiet := quiet;
      new;
      assert IsRun(Init(), []) && After(Init(), []) == Init();
      StepReaches(Init(), Spawn);
    }

    /** Other threads make any steps. */
    method Others(ghost t: nat)
      requires Valid() && t < |machine.threads|
      modifies this
      ensures Valid() && Interfered(old(machine), machine, t) && (quiet ==> machine == old(machine))
    {
      NoInterference(machine, t);
    }

    /** linkToDeath: refused once an obituary was sent; the first link asks the driver. */
    method LinkToDeath(ghost t: nat, recipient: int, cookie: int, flags: int) returns (status: Status)
      requires Valid() && t < |machine.threads|
      modifies this
      ensures Valid() && machine == Step(old(machine), Link(t, recipient, cookie, flags))
      ensures status == if old(mObitsSent) then DeadObject else Ok
      ensures clears == old(clears) && clearDones == old(clearDones) && reports == old(reports)
      ensures status != Ok ==> mObituaries == old(mObituaries) && links == old(links) && requests == old(requests)
      ensures status == Ok ==>
                && mObituaries == Some(Listed(old(machine)) + [Obituary(old(links), recipient, cookie, flags)])
                && links == old(links) + 1 && machine.fates == old(machine).fates + [Linked]
      ensures status == Ok ==> requests == old(requests) + Bit(old(mObituaries) == None)
    {
      hide Reachable;
      StepReaches(machine, Link(t, recipient, cookie, flags));
      if mObitsSent {
        return DeadObject;
      }
      var list := [];
      if mObituaries == None {
        weakRefs := weakRefs + 1;
        requests := requests + 1;
      } else {
        list := mObituaries.value;
      }
      mObituaries := Some(list + [Obituary(links, recipient, cookie, flags)]);
      links := links + 1;
      machine := Step(machine, Link(t, recipient, cookie, flags));
      status := Ok;
    }

    /** unlinkToDeath: discharges the first match; the last one withdraws the request. */
    method UnlinkToDeath(ghost t: nat, recipient: Option<int>, cookie: int, flags: int)
      returns (status: Status, outRecipient: Option<int>)
      requires Valid() && t < |machine.threads|
      modifies this
      ensures Valid() && machine == Step(old(machine), Unlink(t, recipient, cookie, flags))
      ensures var m := FirstMatch(Listed(old(machine)), recipient, cookie, flags);
              && status == (if old(mObitsSent) then DeadObject else if m == None then NameNotFound else Ok)
              && outRecipient == (if status == Ok then Some(Listed(old(machine))[m.value].recipient) else None)
              && (status == Ok ==>
                    var list, o := Listed(old(machine)), Listed(old(machine))[m.value];
                    && o.link < |old(machine).fates| && machine.fates == old(machine).fates[o.link := Unlinked]
                    && mObituaries == (if |list| == 1 then None else Some(list[..m.value] + list[m.value + 1..]))
                    && clears == old(clears) + Bit(|list| == 1))
      ensures status != Ok ==> machine == old(machine)
      ensures links == old(links) && requests == old(requests) && reports == old(reports)
    {
      hide Reachable;
      StepReaches(machine, Unlink(t, recipient, cookie, flags));
      if mObitsSent {
        return DeadObject, None;
      }
      var list := if mObituaries == None then [] else mObituaries.value;
      var i := 0;
      while i < |list|
        invariant 0 <= i <= |list|
        invariant forall j :: 0 <= j < i ==> !Matches(list[j], recipient, cookie, flags)
      {
        if Matches(list[i], recipient, cookie, flags) {
          FirstMatchAt(list, i, recipient, cookie, flags);
          UnlinkIs(machine, t, recipient, cookie, flags, i);
          var rest := list[..i] + list[i + 1..];
          mObituaries := if rest == [] then None else Some(rest);
          if rest == [] { clears := clears + 1; }
          machine := Step(machine, Unlink(t, recipient, cookie, flags));
          return Ok, Some(list[i].recipient);
        }
        i := i + 1;
      }
      FirstMatchNone(list, recipient, cookie, flags);
      return NameNotFound, None;
    }

    /** sendObituary: look without the lock, take the list under the lock, report outside it. */
    method SendObituary(ghost t: nat)
      requires Valid() && Stands(t, Idle)
      modifies this
      ensures Valid() && Stands(t, Idle) && mObitsSent && !mAlive && mObituaries == None
      ensures forall link :: 0 <= link < |machine.fates| ==> machine.fates[link] != Linked
      ensures quiet ==> links == old(links) && forall link :: 0 <= link < links ==>
                machine.fates[link] == if old(machine).fates[link] == Linked then Reported else old(machine).fates[link]
      ensures quiet ==> reports == old(reports) + (if old(mObituaries) == None then 0 else |old(mObituaries).value|)
      ensures quiet ==> clears == old(clears) + (if old(mObituaries) == None then 0 else 1)
    {
      hide Reachable;
      ListedAreLinked(machine);
      mAlive := false;
      StepReaches(machine, Look(t));
      machine := Step(machine, Look(t));
      if !mObitsSent {
        ghost var s := machine;
        Others(t);
        OthersLeave(s, machine, t);
        var obits := TakeObituaries(t);
        ReportAll(t, obits);
      }
      NothingListed();
    }

    /** sendObituary's locked section. */
    method TakeObituaries(ghost t: nat) returns (obits: seq<Obituary>)
      requires Valid() && Stands(t, PassedCheck)
      modifies this
      ensures Valid() && machine == Step(old(machine), Take(t)) && obits == Listed(old(machine))
      ensures mObitsSent && mObituaries == None && clears == old(clears) + Bit(old(mObituaries) != None)
      ensures links == old(links) && requests == old(requests) && reports == old(reports)
      ensures forall link :: 0 <= link < links ==>
                machine.fates[link]
                == if old(machine).fates[link] == Linked then Reporting else old(machine).fates[link]
    {
      ListedAreLinked(machine);
      hide Reachable;
      StepReaches(machine, Take(t));
      obits := [];
      if mObituaries != None {
        obits := mObituaries.value;
        clears := clears + 1;
        mObituaries := None;
      }
      mObitsSent := true;
      machine := Step(machine, Take(t));
    }

    /** sendObituary's loop over the list it took. */
    method ReportAll(ghost t: nat, obits: seq<Obituary>)
      requires Valid() && mObitsSent && Stands(t, Stop(obits))
      modifies this
      ensures Valid() && mObitsSent && Stands(t, Idle) && (old(!mAlive) ==> !mAlive)
      ensures quiet ==> links == old(links) && reports == old(reports) + |obits| && clears == old(clears)
      ensures quiet ==> forall link :: 0 <= link < links ==>
                machine.fates[link] == if Sum(obits, OfLink(link)) > 0 then Reported else old(machine).fates[link]
    {
      hide Reachable, Interfered, OfLink, Discharge;
      var i := 0;
      assert obits[0..] == obits && obits[..0] == [];
      while i < |obits|
        invariant 0 <= i <= |obits| && Valid() && mObitsSent
        invariant Stands(t, Stop(obits[i..])) && (old(!mAlive) ==> !mAlive)
        invariant quiet ==> links == old(links) && reports == old(reports) + i && clears == old(clears)
        invariant quiet ==> forall link :: 0 <= link < links ==>
                    machine.fates[link]
                    == if Sum(obits[..i], OfLink(link)) > 0 then Reported else old(machine).fates[link]
      {
        ghost var s := machine;
        Others(t);
        OthersLeave(s, machine, t);
        assert obits[i..][0] == obits[i] && obits[i..][1..] == obits[i + 1..];
        ReportOneDeath(t, obits[i..]);
        TakenNext(obits, i);
        i := i + 1;
      }
      assert obits[..i] == obits;
    }

    /** reportOneDeath: the recipient gets a weak reference to the proxy and is told. */
    method ReportOneDeath(ghost t: nat, ghost rest: seq<Obituary>)
      requires Valid() && rest != [] && Stands(t, Telling(rest))
      modifies this`weakRefs, this`reports, this`machine
      ensures Valid() && Stands(t, Stop(rest[1..])) && reports == old(reports) + 1 && weakRefs == old(weakRefs) + 1
      ensures rest[0].link < |old(machine).fates| && machine.fates == old(machine).fates[rest[0].link := Reported]
    {
      hide Reachable, Inv, Accounts;
      ReachableInv(machine);
      StepReaches(machine, Tell(t));
      DischargeKnown(machine, t);
      weakRefs := weakRefs + 1;
      reports := reports + 1;
      machine := Step(machine, Tell(t));
    }

    /** onLastStrongRef's locked section: what is still linked is dropped without a report. */
    method OnLastStrongRef(ghost t: nat)
      requires Valid() && t < |machine.threads|
      modifies this
      ensures Valid() && machine == Step(old(machine), LastRef(t))
      ensures mObituaries == None && clears == old(clears) + Bit(old(mObituaries) != None)
      ensures links == old(links) && requests == old(requests) && reports == old(reports)
      ensures mObitsSent == old(mObitsSent)
      ensures |machine.discharges| == |old(machine).discharges| == links
      ensures forall link :: 0 <= link < links ==>
                var was := old(machine).fates[link];
                && machine.fates[link] == (if was == Linked then Dropped else was)
                && machine.discharges[link] == old(machine).discharges[link] + Bit(was == Linked)
    {
      ListedAreLinked(machine);
      hide Reachable;
      StepReaches(machine, LastRef(t));
      if mObituaries != None {
        clears := clears + 1;
        mObituaries := None;
      }
      machine := Step(machine, LastRef(t));
    }

    /** executeCommand on BR_CLEAR_DEATH_NOTIFICATION_DONE. */
    method ClearDeathNotificationDone(ghost t: nat)
      requires Valid() && t < |machine.threads| && clearDones < clears
      modifies this
      ensures Valid() && machine == Step(old(machine), ClearDone(t))
      ensures clearDones == old(clearDones) + 1 && weakRefs == old(weakRefs) - 1
      ensures clears == old(clears) && requests == old(requests) && mObituaries == old(mObituaries)
    {
      hide Reachable;
      StepReaches(machine, ClearDone(t));
      clearDones := clearDones + 1;
      weakRefs := weakRefs - 1;
      machine := Step(machine, ClearDone(t));
    }

    lemma NothingListed()
      requires Valid() && mObitsSent
      ensures mObituaries == None && !mAlive
      ensures forall link :: 0 <= link < |machine.fates| ==> machine.fates[link] != Linked
    {
      ReachableInv(machine);
      hide Reachable;
      forall link | 0 <= link < |machine.fates| ensures machine.fates[link] != Linked { assert LinkInv(machine, link); }
    }
  }

  lemma ListedAreLinked(s: State)
    requires Reachable(s)
    ensures forall link :: 0 <= link < |s.fates| ==> Sum(Listed(s), OfLink(link)) == Bit(s.fates[link] == Linked)
    ensures (s.sent ==> s.list == None) && |s.discharges| == |s.fates|
  {
    ReachableInv(s);
    hide Reachable;
    forall link | 0 <= link < |s.fates| ensures Sum(Listed(s), OfLink(link)) == Bit(s.fates[link] == Linked) {
      assert LinkInv(s, link);
    }
  }

  lemma FirstMatchAt(obits: seq<Obituary>, i: nat, recipient: Option<int>, cookie: int, flags: int)
    requires i < |obits| && Matches(obits[i], recipient, cookie, flags)
    requires forall j :: 0 <= j < i ==> !Matches(obits[j], recipient, cookie, flags)
    ensures FirstMatch(obits, recipient, cookie, flags) == Some(i)
  {
    var r := FirstMatch(obits, recipient, cookie, flags);
    assert r != None;
  }

  lemma FirstMatchNone(obits: seq<Obituary>, recipient: Option<int>, cookie: int, flags: int)
    requires forall i :: 0 <= i < |obits| ==> !Matches(obits[i], recipient, cookie, flags)
    ensures FirstMatch(obits, recipient, cookie, flags) == None
  {
  }

  lemma UnlinkIs(s: State, t: nat, recipient: Option<int>, cookie: int, flags: int, i: nat)
    requires Reachable(s) && t < |s.threads| && !s.sent && FirstMatch(Listed(s), recipient, cookie, flags) == Some(i)
    ensures Listed(s)[i].link < |s.fates|
    ensures var rest := Listed(s)[..i] + Listed(s)[i + 1..];
            var s' := Step(s, Unlink(t, recipient, cookie, flags));
            && s'.list == (if rest == [] then None else Some(rest))
            && s'.clears == s.clears + (if rest == [] then 1 else 0)
            && s' == s.(list := s'.list, clears := s'.clears, fates := s'.fates, discharges := s'.discharges)
            && s'.fates == s.fates[Listed(s)[i].link := Unlinked]
  {
    ReachableInv(s);
    hide Reachable;
    KnownLink(s, Listed(s)[i]);
  }

  lemma DischargeKnown(s: State, t: nat)
    requires Inv(s) && t < |s.threads| && s.threads[t].Telling? && s.threads[t].rest != []
    ensures s.threads[t].rest[0].link < |s.fates|
    ensures Step(s, Tell(t)).fates == s.fates[s.threads[t].rest[0].link := Reported]
  {
    ToldIsReporting(s, t);
  }

  lemma TakenNext(obits: seq<Obituary>, i: nat)
    requires i < |obits|
    ensures forall link ::
              Sum(obits[..i + 1], OfLink(link)) == Sum(obits[..i], OfLink(link)) + Bit(obits[i].link == link)
    ensures forall link :: Sum(obits[..i], OfLink(link)) >= 0
  {
    assert obits[..i + 1] == obits[..i] + [obits[i]];
    forall link
      ensures Sum(obits[..i + 1], OfLink(link)) == Sum(obits[..i], OfLink(link)) + Bit(obits[i].link == link)
    {
      SumAppend(obits[..i], obits[i], OfLink(link));
    }
    forall link ensures Sum(obits[..i], OfLink(link)) >= 0 { NotNegative(obits[..i], link); }
  }
}
