/** Death links of a proxy (BpBinder.c), as a machine over locked sections and reports.

    Every locked section, the unlocked look of sendObituary and every report is one step of one thread; any number of
    threads may be at any point. Obituaries are numbered values: the source keeps the address of a local variable. */
module BpBinder {
  import opened Sums

  datatype Option<T> = None | Some(value: T)

  datatype Status = Ok | DeadObject | NameNotFound

  /** An accepted link: its number, and what linkToDeath was given. */
  datatype Obituary = Obituary(link: nat, recipient: int, cookie: int, flags: int)

  /** What became of an accepted link. The last three are its discharge. */
  datatype Fate = Linked | Reporting | Reported | Unlinked | Dropped

  /** Where a thread stands in sendObituary: outside, past the unlocked check, or reporting what it took. */
  datatype Pc = Idle | PassedCheck | Telling(rest: seq<Obituary>)

  datatype State = State(
    alive: bool,
    sent: bool,
    list: Option<seq<Obituary>>,
    threads: seq<Pc>,
    fates: seq<Fate>,      // of every link so far
    discharges: seq<nat>,  // how often each link was unlinked, reported or dropped
    requests: nat,         // BC_REQUEST_DEATH_NOTIFICATION commands
    clears: nat,           // BC_CLEAR_DEATH_NOTIFICATION commands
    clearDones: nat,       // BR_CLEAR_DEATH_NOTIFICATION_DONE replies served
    reports: nat,          // binderDied calls
    weakRefs: int)         // weak references to the proxy that all of this took and has not dropped

  datatype Event =
    | Spawn
    | Link(t: nat, recipient: int, cookie: int, flags: int)
    | Unlink(t: nat, target: Option<int>, cookie: int, flags: int)
    | Look(t: nat)      // sendObituary: mAlive := 0 and the unlocked check
    | Take(t: nat)      // sendObituary: the locked section
    | Tell(t: nat)      // sendObituary: one report
    | LastRef(t: nat)   // onLastStrongRef: the locked section
    | ClearDone(t: nat) // BR_CLEAR_DEATH_NOTIFICATION_DONE; the driver answers each clear once

  function Init(): State { State(true, false, None, [], [], [], 0, 0, 0, 0, 0) }

  function Listed(s: State): seq<Obituary> {
    if s.list == None then [] else s.list.value
  }

  // ---------------------------------------------------------------- the steps

  predicate Matches(o: Obituary, recipient: Option<int>, cookie: int, flags: int) {
    (recipient == Some(o.recipient) || (recipient == None && o.cookie == cookie)) && o.flags == flags
  }

  /** Where unlinkToDeath's loop stops. */
  function FirstMatch(obits: seq<Obituary>, recipient: Option<int>, cookie: int, flags: int): (r: Option<nat>)
    ensures r == None <==> forall i :: 0 <= i < |obits| ==> !Matches(obits[i], recipient, cookie, flags)
    ensures r != None ==> r.value < |obits| && Matches(obits[r.value], recipient, cookie, flags)
    ensures r != None ==> forall i :: 0 <= i < r.value ==> !Matches(obits[i], recipient, cookie, flags)
  {
    if obits == [] then None
    else if Matches(obits[0], recipient, cookie, flags) then Some(0)
    else
      var r := FirstMatch(obits[1..], recipient, cookie, flags);
      assert forall i :: 0 < i < |obits| ==> obits[i] == obits[1..][i - 1];
      if r == None then None else Some(r.value + 1)
  }

  function OfLink(link: nat): Obituary -> int { (o: Obituary) => Bit(o.link == link) }

  /** The fates when the links of `obits` meet `to`, and their discharge counts when they are discharged. */
  function Mark(fates: seq<Fate>, obits: seq<Obituary>, to: Fate): (r: seq<Fate>)
    ensures |r| == |fates|
  {
    seq(|fates|, l requires 0 <= l < |fates| => if Sum(obits, OfLink(l)) > 0 then to else fates[l])
  }

  function Bump(discharges: seq<nat>, obits: seq<Obituary>): (r: seq<nat>)
    ensures |r| == |discharges|
  {
    seq(|discharges|, l requires 0 <= l < |discharges| =>
      if Sum(obits, OfLink(l)) > 0 then discharges[l] + Sum(obits, OfLink(l)) else discharges[l])
  }

  function Discharge(s: State, link: nat, to: Fate): (r: State)
    ensures r == s.(fates := r.fates, discharges := r.discharges)
    ensures |r.fates| == |s.fates| && |r.discharges| == |s.discharges|
  {
    if link < |s.fates| == |s.discharges| then
      s.(fates := s.fates[link := to], discharges := s.discharges[link := s.discharges[link] + 1])
    else s
  }

  function Clear(s: State): State {
    if s.list == None then s else s.(list := None, clears := s.clears + 1)
  }

  function Stop(rest: seq<Obituary>): Pc { if rest == [] then Idle else Telling(rest) }

  predicate Enabled(s: State, e: Event) {
    match e
    case Spawn => true
    case Link(t, _, _, _) => t < |s.threads|
    case Unlink(t, _, _, _) => t < |s.threads|
    case Look(t) => t < |s.threads| && s.threads[t] == Idle
    case Take(t) => t < |s.threads| && s.threads[t] == PassedCheck
    case Tell(t) => t < |s.threads| && s.threads[t].Telling? && s.threads[t].rest != []
    case LastRef(t) => t < |s.threads|
    case ClearDone(t) => t < |s.threads| && s.clearDones < s.clears
  }

  function LinkStep(s: State, recipient: int, cookie: int, flags: int): State {
    if s.sent then s
    else
      var ob := Obituary(|s.fates|, recipient, cookie, flags);
      var s' := s.(list := Some(Listed(s) + [ob]), fates := s.fates + [Linked], discharges := s.discharges + [0]);
      if s.list == None then s'.(requests := s.requests + 1, weakRefs := s.weakRefs + 1) else s'
  }

  function UnlinkStep(s: State, recipient: Option<int>, cookie: int, flags: int): State {
    var m := FirstMatch(Listed(s), recipient, cookie, flags);
    if s.sent || m == None then s
    else
      var obits := Listed(s);
      var rest := obits[..m.value] + obits[m.value + 1..];
      var s' := Discharge(s, obits[m.value].link, Unlinked);
      if rest == [] then s'.(list := None, clears := s.clears + 1) else s'.(list := Some(rest))
  }

  function Step(s: State, e: Event): State
    requires Enabled(s, e)
  {
    match e
    case Spawn => s.(threads := s.threads + [Idle])
    case Link(_, recipient, cookie, flags) => LinkStep(s, recipient, cookie, flags)
    case Unlink(_, recipient, cookie, flags) => UnlinkStep(s, recipient, cookie, flags)
    case Look(t) => s.(alive := false, threads := s.threads[t := if s.sent then Idle else PassedCheck])
    case Take(t) =>
      Clear(s).(sent := true, fates := Mark(s.fates, Listed(s), Reporting), threads := s.threads[t := Stop(Listed(s))])
    case Tell(t) =>
      var rest := s.threads[t].rest;
      Discharge(s, rest[0].link, Reported)
        .(reports := s.reports + 1, weakRefs := s.weakRefs + 1, threads := s.threads[t := Stop(rest[1..])])
    case LastRef(_) =>
      Clear(s).(fates := Mark(s.fates, Listed(s), Dropped), discharges := Bump(s.discharges, Listed(s)))
    case ClearDone(_) => s.(clearDones := s.clearDones + 1, weakRefs := s.weakRefs - 1)
  }

  /** `run` is a schedule that can be followed from `s`. */
  predicate IsRun(s: State, run: seq<Event>)
    decreases run
  {
    run == [] || (Enabled(s, run[0]) && IsRun(Step(s, run[0]), run[1..]))
  }

  /** The state that a run leads to. */
  function After(s: State, run: seq<Event>): State
    requires IsRun(s, run)
    decreases run
  {
    if run == [] then s else After(Step(s, run[0]), run[1..])
  }

  lemma {:induction false} RunConcat(s: State, a: seq<Event>, b: seq<Event>)
    requires IsRun(s, a) && IsRun(After(s, a), b)
    ensures IsRun(s, a + b) && After(s, a + b) == After(After(s, a), b)
    decreases a
  {
    hide Enabled, Step;
    if a == [] {
      assert a + b == b;
    } else {
      assert (a + b)[1..] == a[1..] + b;
      RunConcat(Step(s, a[0]), a[1..], b);
    }
  }

  // ---------------------------------------------------------------- the invariant

  function RestOf(pc: Pc): seq<Obituary> { if pc.Telling? then pc.rest else [] }

  /** How often a thread has still to report a link. */
  function Holds(link: nat): Pc -> int { (pc: Pc) => Sum(RestOf(pc), OfLink(link)) }

  function FateOf(s: State, link: nat): Option<Fate> { if link < |s.fates| then Some(s.fates[link]) else None }

  predicate Done(f: Fate) { f == Reported || f == Unlinked || f == Dropped }

  /** A link is on the list exactly while it is linked, with exactly one thread exactly while it is being reported,
      and has been discharged exactly once when it is neither. */
  predicate LinkInv(s: State, link: nat) {
    && Sum(Listed(s), OfLink(link)) == Bit(FateOf(s, link) == Some(Linked))
    && Sum(s.threads, Holds(link)) == Bit(FateOf(s, link) == Some(Reporting))
    && (link < |s.fates| && link < |s.discharges| ==> s.discharges[link] == Bit(Done(s.fates[link])))
  }

  function IsReported(): Fate -> int { (f: Fate) => Bit(f == Reported) }

  predicate Accounts(s: State) {
    && (s.list != None ==> s.list.value != [])
    && s.requests == s.clears + Bit(s.list != None)
    && s.clearDones <= s.clears
    && s.weakRefs == s.requests - s.clearDones + s.reports
    && (s.sent ==> s.list == None && !s.alive)
    && (forall t :: 0 <= t < |s.threads| && s.threads[t] != Idle ==> !s.alive)
    && s.reports == Sum(s.fates, IsReported())
  }

  ghost predicate Inv(s: State) {
    |s.discharges| == |s.fates| && Accounts(s) && forall link: nat :: LinkInv(s, link)
  }

  lemma NotNegative(obits: seq<Obituary>, link: nat)
    ensures Sum(obits, OfLink(link)) >= 0
  {
    NoNegative(obits, OfLink(link));
  }

  /** Every number on the list or with a thread is that of an accepted link. */
  lemma KnownLink(s: State, o: Obituary)
    requires Inv(s) && (o in Listed(s) || exists t :: 0 <= t < |s.threads| && o in RestOf(s.threads[t]))
    ensures o.link < |s.fates|
    ensures o in Listed(s) ==> s.fates[o.link] == Linked
    ensures o !in Listed(s) ==> s.fates[o.link] == Reporting
  {
    hide Accounts;
    assert LinkInv(s, o.link);
    NotNegative(Listed(s), o.link);
    if o in Listed(s) {
      var i :| 0 <= i < |Listed(s)| && Listed(s)[i] == o;
      OneWeight(Listed(s), i, OfLink(o.link));
    } else {
      var t :| 0 <= t < |s.threads| && o in RestOf(s.threads[t]);
      var i :| 0 <= i < |RestOf(s.threads[t])| && RestOf(s.threads[t])[i] == o;
      OneWeight(RestOf(s.threads[t]), i, OfLink(o.link));
      HoldsNotNegative(o.link);
      OneWeight(s.threads, t, Holds(o.link));
    }
  }

  lemma HoldsNotNegative(link: nat)
    ensures forall pc :: Holds(link)(pc) >= 0
  {
    forall pc ensures Holds(link)(pc) >= 0 { NotNegative(RestOf(pc), link); }
  }

  // ---------------------------------------------------------------- every step keeps it

  lemma LinkKeepsLink(s: State, e: Event, link: nat)
    requires Inv(s) && Enabled(s, e) && e.Link?
    ensures LinkInv(Step(s, e), link)
  {
    hide Accounts;
    assert LinkInv(s, link);
    SumAppend(Listed(s), Obituary(|s.fates|, e.recipient, e.cookie, e.flags), OfLink(link));
  }

  /** What a successful unlinkToDeath changes. */
  lemma UnlinkParts(s: State, e: Event, i: nat)
    requires Inv(s) && Enabled(s, e) && e.Unlink? && !s.sent
    requires FirstMatch(Listed(s), e.target, e.cookie, e.flags) == Some(i)
    ensures var o := Listed(s)[i]; var s' := Step(s, e);
            && o.link < |s.fates| == |s.discharges| && s.fates[o.link] == Linked
            && Listed(s') == Listed(s)[..i] + Listed(s)[i + 1..] && s'.threads == s.threads
            && s'.fates == s.fates[o.link := Unlinked]
            && s'.discharges == s.discharges[o.link := s.discharges[o.link] + 1]
  {
    hide LinkInv;
    KnownLink(s, Listed(s)[i]);
  }

  lemma UnlinkKeepsLink(s: State, e: Event, link: nat)
    requires Inv(s) && Enabled(s, e) && e.Unlink?
    ensures LinkInv(Step(s, e), link)
  {
    hide Accounts;
    assert LinkInv(s, link);
    var m := FirstMatch(Listed(s), e.target, e.cookie, e.flags);
    if m != None && !s.sent {
      UnlinkParts(s, e, m.value);
      SumWithout(Listed(s), m.value, OfLink(link));
      hide Step, FirstMatch;
    }
  }

  lemma TakeKeepsLink(s: State, e: Event, link: nat)
    requires Inv(s) && Enabled(s, e) && e.Take?
    ensures LinkInv(Step(s, e), link)
  {
    hide Accounts;
    assert LinkInv(s, link);
    SumUpdate(s.threads, e.t, Stop(Listed(s)), Holds(link));
    assert Holds(link)(PassedCheck) == 0;
  }

  lemma TellKeepsLink(s: State, e: Event, link: nat)
    requires Inv(s) && Enabled(s, e) && e.Tell?
    ensures LinkInv(Step(s, e), link)
  {
    hide Accounts;
    assert LinkInv(s, link);
    var rest := s.threads[e.t].rest;
    assert rest[0] in RestOf(s.threads[e.t]);
    assert LinkInv(s, rest[0].link);
    ToldIsReporting(s, e.t);
    SumUpdate(s.threads, e.t, Stop(rest[1..]), Holds(link));
    HoldsNotNegative(link);
    NoNegative(s.threads[e.t := Stop(rest[1..])], Holds(link));
  }

  lemma ToldIsReporting(s: State, t: nat)
    requires Inv(s) && t < |s.threads| && s.threads[t].Telling? && s.threads[t].rest != []
    ensures s.threads[t].rest[0].link < |s.fates| && s.fates[s.threads[t].rest[0].link] == Reporting
  {
    hide Accounts;
    var o := s.threads[t].rest[0];
    assert LinkInv(s, o.link);
    OneWeight(RestOf(s.threads[t]), 0, OfLink(o.link));
    HoldsNotNegative(o.link);
    OneWeight(s.threads, t, Holds(o.link));
  }

  lemma LastRefKeepsLink(s: State, e: Event, link: nat)
    requires Inv(s) && Enabled(s, e) && e.LastRef?
    ensures LinkInv(Step(s, e), link)
  {
    hide Accounts;
    assert LinkInv(s, link);
  }

  lemma StepKeepsLink(s: State, e: Event, link: nat)
    requires Inv(s) && Enabled(s, e)
    ensures LinkInv(Step(s, e), link)
  {
    hide Accounts;
    match e {
      case Spawn =>
        assert LinkInv(s, link);
        SumAppend(s.threads, Idle, Holds(link));
      case Link(_, _, _, _) => LinkKeepsLink(s, e, link);
      case Unlink(_, _, _, _) => UnlinkKeepsLink(s, e, link);
      case Look(t) =>
        assert LinkInv(s, link);
        SumUpdate(s.threads, t, if s.sent then Idle else PassedCheck, Holds(link));
      case Take(_) => TakeKeepsLink(s, e, link);
      case Tell(_) => TellKeepsLink(s, e, link);
      case LastRef(_) => LastRefKeepsLink(s, e, link);
      case ClearDone(_) => assert LinkInv(s, link);
    }
  }

  /** Links that leave the list together were all linked. */
  lemma MarkKeepsReports(s: State, to: Fate)
    requires Inv(s) && to != Reported
    ensures Sum(Mark(s.fates, Listed(s), to), IsReported()) == Sum(s.fates, IsReported())
  {
    hide Accounts;
    forall l | 0 <= l < |s.fates|
      ensures IsReported()(Mark(s.fates, Listed(s), to)[l]) == IsReported()(s.fates[l])
    {
      assert LinkInv(s, l);
    }
    SumPointwise(Mark(s.fates, Listed(s), to), s.fates, IsReported());
  }

  lemma StepKeepsAccounts(s: State, e: Event)
    requires Inv(s) && Enabled(s, e)
    ensures Accounts(Step(s, e)) && |Step(s, e).discharges| == |Step(s, e).fates|
  {
    hide LinkInv, IsReported, Mark, Bump, Discharge, FirstMatch;
    StepKeepsReports(s, e);
  }

  /** The binderDied calls are the reported links. */
  lemma StepKeepsReports(s: State, e: Event)
    requires Inv(s) && Enabled(s, e)
    ensures Step(s, e).reports == Sum(Step(s, e).fates, IsReported())
  {
    match e {
      case Link(_, _, _, _) => SumAppend(s.fates, Linked, IsReported());
      case Unlink(_, target, cookie, flags) =>
        var m := FirstMatch(Listed(s), target, cookie, flags);
        if m != None {
          KnownLink(s, Listed(s)[m.value]);
          SumUpdate(s.fates, Listed(s)[m.value].link, Unlinked, IsReported());
        }
      case Take(_) => MarkKeepsReports(s, Reporting);
      case Tell(t) =>
        ToldIsReporting(s, t);
        SumUpdate(s.fates, s.threads[t].rest[0].link, Reported, IsReported());
      case LastRef(_) => MarkKeepsReports(s, Dropped);
      case _ =>
    }
  }

  lemma StepKeepsInv(s: State, e: Event)
    requires Inv(s) && Enabled(s, e)
    ensures Inv(Step(s, e))
  {
    hide Accounts, LinkInv, Step;
    StepKeepsAccounts(s, e);
    forall link: nat ensures LinkInv(Step(s, e), link) { StepKeepsLink(s, e, link); }
  }

  lemma InitInv()
    ensures Inv(Init())
  {
  }

  lemma {:induction false} RunKeepsInv(s: State, run: seq<Event>)
    requires Inv(s) && IsRun(s, run)
    ensures Inv(After(s, run))
    decreases run
  {
    hide Inv, Step, Enabled;
    if run != [] {
      StepKeepsInv(s, run[0]);
      RunKeepsInv(Step(s, run[0]), run[1..]);
    }
  }

  ghost predicate Reachable(s: State) {
    exists run :: IsRun(Init(), run) && After(Init(), run) == s
  }

  lemma ReachableInv(s: State)
    requires Reachable(s)
    ensures Inv(s)
  {
    hide Inv, IsRun, After;
    var run :| IsRun(Init(), run) && After(Init(), run) == s;
    InitInv();
    RunKeepsInv(Init(), run);
  }

  lemma StillReachable(s: State, run: seq<Event>)
    requires Reachable(s) && IsRun(s, run)
    ensures Reachable(After(s, run))
  {
    hide IsRun, After;
    var before :| IsRun(Init(), before) && After(Init(), before) == s;
    RunConcat(Init(), before, run);
  }

  lemma StepReaches(s: State, e: Event)
    requires Reachable(s) && Enabled(s, e)
    ensures Reachable(Step(s, e))
  {
    hide Reachable;
    var one := [e];
    assert one[1..] == [] && After(Step(s, e), one[1..]) == Step(s, e);
    assert IsRun(s, one) && After(s, one) == Step(s, e);
    StillReachable(s, one);
  }

  // ---------------------------------------------------------------- what holds of every run

  /** Every accepted link is in exactly one place: on the list, with exactly one thread, or discharged exactly once. */
  lemma EachLinkHasOnePlace(s: State, link: nat)
    requires Reachable(s) && link < |s.fates|
    ensures |s.discharges| == |s.fates| && s.discharges[link] == Bit(Done(s.fates[link])) <= 1
    ensures s.fates[link] == Linked <==> Sum(Listed(s), OfLink(link)) == 1
    ensures s.fates[link] == Reporting <==> exists t :: 0 <= t < |s.threads| && Holds(link)(s.threads[t]) == 1
    ensures forall t :: 0 <= t < |s.threads| ==> 0 <= Holds(link)(s.threads[t]) <= 1
    ensures forall t, u :: 0 <= t < u < |s.threads| ==>
              Holds(link)(s.threads[t]) == 0 || Holds(link)(s.threads[u]) == 0
  {
    ReachableInv(s);
    hide Reachable, Accounts, Holds;
    assert LinkInv(s, link);
    HoldsNotNegative(link);
    forall t | 0 <= t < |s.threads| ensures 0 <= Holds(link)(s.threads[t]) <= 1 {
      OneWeight(s.threads, t, Holds(link));
    }
    forall t, u | 0 <= t < u < |s.threads| ensures Holds(link)(s.threads[t]) == 0 || Holds(link)(s.threads[u]) == 0 {
      TwoWeights(s.threads, t, u, Holds(link));
    }
    if s.fates[link] == Reporting {
      var t := SomeWeight(s.threads, Holds(link));
    } else {
      forall t | 0 <= t < |s.threads| ensures Holds(link)(s.threads[t]) != 1 {
        OneWeight(s.threads, t, Holds(link));
      }
    }
  }

  /** The binderDied calls are exactly the reported links, and requests less clears is one exactly while some link is
      on the list. */
  lemma AccountsBalance(s: State)
    requires Reachable(s)
    ensures s.reports == Sum(s.fates, IsReported())
    ensures s.requests - s.clears == 1 <==> exists link :: 0 <= link < |s.fates| && s.fates[link] == Linked
    ensures s.requests - s.clears == Bit(s.list != None)
    ensures s.weakRefs == s.requests - s.clearDones + s.reports
  {
    ReachableInv(s);
    hide Reachable;
    if s.list != None {
      KnownLink(s, s.list.value[0]);
    } else {
      forall link | 0 <= link < |s.fates| ensures s.fates[link] != Linked { assert LinkInv(s, link); }
    }
  }

  /** The weak references that the protocol holds are its unanswered requests exactly until the first report: what a
      report takes is never dropped. */
  lemma WeakRefsMatchUntilReport(s: State)
    requires Reachable(s)
    ensures s.weakRefs == s.requests - s.clearDones <==> s.reports == 0
  {
    AccountsBalance(s);
  }

  /** A run in which they differ: one link, the binder dies, the driver has answered everything, and a reference to
      the proxy is left. */
  lemma ReportKeepsReference() returns (s: State)
    ensures Reachable(s) && s.requests == s.clears == s.clearDones == 1 && s.reports == 1 && s.weakRefs == 1
    ensures forall t :: 0 <= t < |s.threads| ==> s.threads[t] == Idle
  {
    s := Init();
    assert Reachable(s) by { assert IsRun(s, []) && After(s, []) == s; }
    hide Reachable, Mark, Discharge;
    s := StepTo(s, Spawn);
    s := StepTo(s, Link(0, 7, 0, 0));
    assert s.list.value == [Obituary(0, 7, 0, 0)];
    assert s.requests == s.weakRefs == 1 && s.clears == s.clearDones == 0;
    s := StepTo(s, Look(0));
    s := StepTo(s, Take(0));
    assert s.threads[0] == Telling([Obituary(0, 7, 0, 0)]) && |s.threads| == 1 && s.clears == 1;
    s := Told(s);
    s := StepTo(s, ClearDone(0));
  }

  /** The only report of the only thread. */
  lemma Told(s: State) returns (s': State)
    requires Reachable(s) && |s.threads| == 1 && s.threads[0].Telling? && |s.threads[0].rest| == 1
    ensures Reachable(s') && s'.threads == [Idle] && s'.reports == s.reports + 1 && s'.weakRefs == s.weakRefs + 1
    ensures s'.requests == s.requests && s'.clears == s.clears && s'.clearDones == s.clearDones
  {
    hide Reachable;
    s' := StepTo(s, Tell(0));
  }

  lemma StepTo(s: State, e: Event) returns (s': State)
    requires Reachable(s) && Enabled(s, e)
    ensures Reachable(s') && s' == Step(s, e)
  {
    s' := Step(s, e);
    StepReaches(s, e);
  }

  /** An accepted link is found by unlinkToDeath if and only if that is given its flags and its recipient, or no
      recipient and its cookie, and no earlier link is like that; unlinking it then restores the list. */
  lemma LinkIsFound(s: State, t: nat, recipient: int, cookie: int, flags: int,
                    target: Option<int>, cookie2: int, flags2: int)
    requires Reachable(s) && t < |s.threads| && !s.sent
    ensures var s1 := Step(s, Link(t, recipient, cookie, flags));
            var s2 := Step(s1, Unlink(t, target, cookie2, flags2));
            var asked := flags2 == flags && (target == Some(recipient) || (target == None && cookie2 == cookie));
            var earlier := FirstMatch(Listed(s), target, cookie2, flags2) != None;
            && Listed(s1) == Listed(s) + [Obituary(|s.fates|, recipient, cookie, flags)]
            && |s2.fates| == |s.fates| + 1 && (s2.fates[|s.fates|] == Unlinked <==> asked && !earlier)
            && (asked && !earlier ==> s2.list == s.list) && (!asked && !earlier ==> s2 == s1)
  {
    hide Reachable, FirstMatch, Matches, UnlinkStep, LinkStep;
    ListIsSound(s);
    NewLinkIsFound(s, recipient, cookie, flags, target, cookie2, flags2);
  }

  lemma ListIsSound(s: State)
    requires Reachable(s)
    ensures (s.list != None ==> s.list.value != []) && |s.discharges| == |s.fates|
    ensures forall i :: 0 <= i < |Listed(s)| ==> Listed(s)[i].link < |s.fates|
  {
    ReachableInv(s);
    hide Reachable;
    forall i | 0 <= i < |Listed(s)| ensures Listed(s)[i].link < |s.fates| { KnownLink(s, Listed(s)[i]); }
  }

  lemma NewLinkIsFound(s: State, recipient: int, cookie: int, flags: int,
                       target: Option<int>, cookie2: int, flags2: int)
    requires !s.sent
    requires (s.list != None ==> s.list.value != []) && |s.discharges| == |s.fates|
    requires forall i :: 0 <= i < |Listed(s)| ==> Listed(s)[i].link < |s.fates|
    ensures var s1 := LinkStep(s, recipient, cookie, flags);
            var s2 := UnlinkStep(s1, target, cookie2, flags2);
            var asked := flags2 == flags && (target == Some(recipient) || (target == None && cookie2 == cookie));
            var earlier := FirstMatch(Listed(s), target, cookie2, flags2) != None;
            && Listed(s1) == Listed(s) + [Obituary(|s.fates|, recipient, cookie, flags)]
            && |s2.fates| == |s.fates| + 1 && (s2.fates[|s.fates|] == Unlinked <==> asked && !earlier)
            && (asked && !earlier ==> s2.list == s.list) && (!asked && !earlier ==> s2 == s1)
  {
    var ob, list := Obituary(|s.fates|, recipient, cookie, flags), Listed(s);
    var s1 := LinkStep(s, recipient, cookie, flags);
    assert Listed(s1) == list + [ob] && s1.fates == s.fates + [Linked] && |s1.discharges| == |s1.fates| && !s1.sent;
    hide LinkStep, UnlinkStep, FirstMatch;
    FoundAfter(list, ob, target, cookie2, flags2);
    if FirstMatch(list + [ob], target, cookie2, flags2) == None {
      UnlinkMisses(s1, target, cookie2, flags2);
    } else {
      FirstGoes(s1, list, ob, target, cookie2, flags2);
    }
  }

  /** The first match goes, which is the last entry only if it is the only match. */
  lemma FirstGoes(s: State, list: seq<Obituary>, ob: Obituary, target: Option<int>, cookie: int, flags: int)
    requires !s.sent && Listed(s) == list + [ob] && ob.link < |s.fates| == |s.discharges| && s.fates[ob.link] == Linked
    requires forall i :: 0 <= i < |list| ==> list[i].link < ob.link
    requires FirstMatch(list + [ob], target, cookie, flags) != None
    ensures var s', m := UnlinkStep(s, target, cookie, flags), FirstMatch(list + [ob], target, cookie, flags).value;
            && |s'.fates| == |s.fates| && (s'.fates[ob.link] == Unlinked <==> m == |list|)
            && (m == |list| ==> s'.list == if list == [] then None else Some(list))
  {
    hide FirstMatch, UnlinkStep;
    var m := FirstMatch(list + [ob], target, cookie, flags).value;
    assert (list + [ob])[m] == if m < |list| then list[m] else ob;
    UnlinkedIs(s, target, cookie, flags, m);
    assert m == |list| ==> (list + [ob])[..m] + (list + [ob])[m + 1..] == list;
  }

  lemma UnlinkMisses(s: State, target: Option<int>, cookie: int, flags: int)
    requires FirstMatch(Listed(s), target, cookie, flags) == None
    ensures UnlinkStep(s, target, cookie, flags) == s
  {
  }

  lemma UnlinkedIs(s: State, target: Option<int>, cookie: int, flags: int, m: nat)
    requires !s.sent && FirstMatch(Listed(s), target, cookie, flags) == Some(m)
    requires Listed(s)[m].link < |s.fates| == |s.discharges|
    ensures var s' := UnlinkStep(s, target, cookie, flags);
            && s'.fates == s.fates[Listed(s)[m].link := Unlinked]
            && Listed(s') == Listed(s)[..m] + Listed(s)[m + 1..]
            && s'.list == if Listed(s') == [] then None else Some(Listed(s'))
  {
    hide FirstMatch;
  }

  lemma {:induction false} FoundAfter(list: seq<Obituary>, o: Obituary, target: Option<int>, cookie: int, flags: int)
    ensures var m := FirstMatch(list, target, cookie, flags);
            FirstMatch(list + [o], target, cookie, flags)
            == if m == None && Matches(o, target, cookie, flags) then Some(|list|) else m
  {
    if list != [] {
      assert (list + [o])[1..] == list[1..] + [o];
      FoundAfter(list[1..], o, target, cookie, flags);
    }
  }

  /** How a link's fate may go on. */
  predicate Moves(from: Fate, to: Fate) {
    from == to || (from == Linked && to != Linked) || (from == Reporting && to == Reported)
  }

  lemma StepMovesFates(s: State, e: Event, link: nat)
    requires Inv(s) && Enabled(s, e) && link < |s.fates|
    ensures link < |Step(s, e).fates| && Moves(s.fates[link], Step(s, e).fates[link])
    ensures s.sent ==> Step(s, e).sent && |Step(s, e).fates| == |s.fates|
  {
    hide Accounts;
    assert LinkInv(s, link);
    match e {
      case Unlink(_, target, cookie, flags) =>
        var m := FirstMatch(Listed(s), target, cookie, flags);
        if m != None { KnownLink(s, Listed(s)[m.value]); }
      case Tell(t) => ToldIsReporting(s, t);
      case _ =>
    }
  }

  /** In every run a fate only moves forward: a link that was reported, unlinked or dropped stays so. */
  lemma {:induction false} FateIsFinal(s: State, run: seq<Event>, link: nat)
    requires Inv(s) && IsRun(s, run) && link < |s.fates|
    ensures link < |After(s, run).fates| && Moves(s.fates[link], After(s, run).fates[link])
    ensures Done(s.fates[link]) ==> After(s, run).fates[link] == s.fates[link]
    decreases run
  {
    hide Inv, Enabled, Step;
    if run != [] {
      StepMovesFates(s, run[0], link);
      StepKeepsInv(s, run[0]);
      FateIsFinal(Step(s, run[0]), run[1..], link);
    }
  }

  /** After an obituary no link is accepted any more, in any continuation. */
  lemma {:induction false} NoLinkAfterObituary(s: State, run: seq<Event>)
    requires Inv(s) && IsRun(s, run) && s.sent
    ensures After(s, run).sent && |After(s, run).fates| == |s.fates| && After(s, run).list == None
    decreases run
  {
    hide Enabled, Step, LinkInv;
    if run != [] {
      StepKeepsInv(s, run[0]);
      SentStays(s, run[0]);
      NoLinkAfterObituary(Step(s, run[0]), run[1..]);
    }
  }

  lemma SentStays(s: State, e: Event)
    requires Inv(s) && Enabled(s, e) && s.sent
    ensures Step(s, e).sent && |Step(s, e).fates| == |s.fates|
  {
    hide LinkInv;
  }

  /** Once an obituary was sent and every call has returned, every link ever accepted was discharged exactly once. */
  lemma AllDischargedOnce(s: State, link: nat)
    requires Reachable(s) && s.sent && link < |s.fates| && forall t :: 0 <= t < |s.threads| ==> s.threads[t] == Idle
    ensures |s.discharges| == |s.fates| && s.discharges[link] == 1 && Done(s.fates[link])
  {
    ReachableInv(s);
    hide Reachable;
    assert LinkInv(s, link);
    SumZero(s.threads, Holds(link));
  }
}
