/** The client side of the cross-CPU registry (ICpcServiceManager.cpp): its record of waiters must agree with the
    registry's listener lists. Remote calls succeed. */
module CpcShim {
  import opened CpcServiceManager

  datatype ClientStatus = Fine | BadValue

  /** A waiting callback and the waiter object registered for it. */
  type Waiting = (nat, nat)

  // ---------------------------------------------------------------- lists

  /** The members of `s` that are in `mine`, in order. */
  function Filter(s: seq<nat>, mine: set<nat>): seq<nat> {
    if s == [] then [] else (if s[0] in mine then [s[0]] else []) + Filter(s[1..], mine)
  }

  lemma FilterOne(x: nat, mine: set<nat>)
    ensures Filter([], mine) == [] && Filter([x], mine) == if x in mine then [x] else []
  {
  }

  lemma FilterHead(h: nat, s: seq<nat>, mine: set<nat>)
    ensures Filter([h] + s, mine) == if h in mine then [h] + Filter(s, mine) else Filter(s, mine)
  {
    assert ([h] + s)[1..] == s;
  }

  lemma {:induction false} FilterAppend(s: seq<nat>, x: nat, mine: set<nat>)
    ensures Filter(s + [x], mine) == Filter(s, mine) + (if x in mine then [x] else [])
  {
    hide Filter;
    FilterOne(x, mine);
    if s == [] {
      assert s + [x] == [x];
    } else {
      var h, t := s[0], s[1..];
      assert s == [h] + t && s + [x] == [h] + (t + [x]);
      FilterHead(h, t, mine);
      FilterHead(h, t + [x], mine);
      FilterAppend(t, x, mine);
    }
  }

  /** Removing from the whole list and removing from the filtered list agree. */
  lemma {:induction false} FilterRemove(s: seq<nat>, x: nat, mine: set<nat>)
    ensures Filter(RemoveFirst(s, x), mine) == if x in mine then RemoveFirst(Filter(s, mine), x) else Filter(s, mine)
  {
    if s == [] {
    } else if s[0] == x {
      RemoveHead(x, Filter(s[1..], mine));
    } else {
      FilterRemove(s[1..], x, mine);
      var rest, tail := RemoveFirst(s[1..], x), Filter(s[1..], mine);
      assert RemoveFirst(s, x) == [s[0]] + rest;
      FilterHead(s[0], rest, mine);
      RemoveSkips(s[0], tail, x);
      if s[0] !in mine { assert Filter(s, mine) == [] + tail == tail; }
    }
  }

  lemma RemoveSkips(h: nat, s: seq<nat>, x: nat)
    requires h != x
    ensures RemoveFirst([h] + s, x) == [h] + RemoveFirst(s, x)
  {
    assert ([h] + s)[1..] == s;
  }

  lemma RemoveHead(h: nat, s: seq<nat>)
    ensures RemoveFirst([h] + s, h) == s
  {
    assert ([h] + s)[1..] == s;
  }

  lemma {:induction false} FilterGrows(s: seq<nat>, mine: set<nat>, x: nat)
    requires x !in s
    ensures Filter(s, mine + {x}) == Filter(s, mine)
  {
    if s != [] { FilterGrows(s[1..], mine, x); }
  }

  /** The members of `s` that are not in `mine`. */
  function Rest(s: seq<nat>, mine: set<nat>): seq<nat> {
    if s == [] then [] else (if s[0] in mine then [] else [s[0]]) + Rest(s[1..], mine)
  }

  lemma {:induction false} RestKept(s: seq<nat>, x: nat, mine: set<nat>)
    requires x in mine
    ensures Rest(RemoveFirst(s, x), mine) == Rest(s, mine)
  {
    if s != [] && s[0] != x {
      RestKept(s[1..], x, mine);
      assert ([s[0]] + RemoveFirst(s[1..], x))[1..] == RemoveFirst(s[1..], x);
    }
  }

  function Waiters(list: seq<Waiting>): seq<nat> { seq(|list|, i requires 0 <= i < |list| => list[i].1) }

  predicate NoRepeats(s: seq<nat>) { forall i, j :: 0 <= i < j < |s| ==> s[i] != s[j] }

  /** The entries that do not wait for `cb`. */
  function Drop(list: seq<Waiting>, cb: nat): seq<Waiting> {
    if list == [] then [] else (if list[0].0 == cb then [] else [list[0]]) + Drop(list[1..], cb)
  }

  /** Erasing entry `i`, which waits for `cb`. */
  lemma {:induction false} DropErase(list: seq<Waiting>, i: nat, cb: nat)
    requires i < |list| && list[i].0 == cb
    ensures Drop(list[..i] + list[i + 1..], cb) == Drop(list, cb)
  {
    if i == 0 {
      assert list[..0] + list[1..] == list[1..];
    } else {
      var rest := list[..i] + list[i + 1..];
      assert rest[1..] == list[1..][..i - 1] + list[1..][i..];
      DropErase(list[1..], i - 1, cb);
    }
  }

  lemma {:induction false} DropKeeps(list: seq<Waiting>, cb: nat)
    requires forall k :: 0 <= k < |list| ==> list[k].0 != cb
    ensures Drop(list, cb) == list
  {
    if list != [] { DropKeeps(list[1..], cb); }
  }

  lemma {:induction false} DropLast(list: seq<Waiting>, w: Waiting)
    requires forall k :: 0 <= k < |list| ==> list[k].0 != w.0
    ensures Drop(list + [w], w.0) == list
  {
    DropErase(list + [w], |list|, w.0);
    assert (list + [w])[..|list|] + (list + [w])[|list| + 1..] == list;
    DropKeeps(list, w.0);
  }

  /** With no waiter twice, erasing an entry removes exactly its waiter. */
  lemma EraseWaiter(list: seq<Waiting>, i: nat)
    requires i < |list| && NoRepeats(Waiters(list))
    ensures Waiters(list[..i] + list[i + 1..]) == RemoveFirst(Waiters(list), list[i].1)
    ensures NoRepeats(Waiters(list[..i] + list[i + 1..]))
  {
    var s := Waiters(list);
    assert s[i] !in s[..i] by {
      forall k | 0 <= k < i ensures s[k] != s[i] {}
    }
    EraseIsRemoveFirst(s, i);
    var r := Waiters(list[..i] + list[i + 1..]);
    assert r == s[..i] + s[i + 1..];
    forall j | 0 <= j < |r| ensures r[j] == s[if j < i then j else j + 1] {}
  }

  // ---------------------------------------------------------------- agreement

  function Recorded(rec: map<string, seq<Waiting>>, name: string): seq<Waiting> {
    if name in rec then rec[name] else []
  }

  /** For every name, the recorded waiters are exactly this client's entries in the registry's list, in the same
      order. */
  ghost predicate Matches(rec: map<string, seq<Waiting>>, m: Manager, mine: set<nat>) {
    && (forall n: string :: Filter(m.Listeners(n), mine) == Waiters(Recorded(rec, n)))
    && (forall n: string :: NoRepeats(Waiters(Recorded(rec, n))))
  }

  /** A call that another client makes: it concerns none of this client's waiters. */
  predicate Foreign(call: Call, mine: set<nat>) {
    match call
    case Register(_, cb) => cb !in mine
    case Unregister(_, cb) => cb !in mine
    case _ => true
  }

  lemma ListenersAfter(m: Manager, call: Call, n: string)
    ensures After(m, call).Listeners(n) ==
              match call
              case Register(name, cb) =>
                if n == name && Outcome(m, call) == Ok then m.Listeners(n) + [cb] else m.Listeners(n)
              case Unregister(name, cb) => if n == name then RemoveFirst(m.Listeners(n), cb) else m.Listeners(n)
              case _ => m.Listeners(n)
  {
    hide FirstSlash, ValidName;
    if call.Unregister? && call.callback !in m.Listeners(call.name) {
      RemoveAbsent(m.Listeners(call.name), call.callback);
    }
  }

  lemma {:induction false} RemoveAbsent(s: seq<nat>, x: nat)
    requires x !in s
    ensures RemoveFirst(s, x) == s
  {
    if s != [] { RemoveAbsent(s[1..], x); }
  }

  /** Whatever other clients do, agreement stays. */
  lemma OthersKeepMatch(rec: map<string, seq<Waiting>>, m: Manager, mine: set<nat>, call: Call)
    requires Matches(rec, m, mine) && Foreign(call, mine)
    ensures Matches(rec, After(m, call), mine)
  {
    hide After, Outcome, Manager.Listeners, Filter, RemoveFirst, NoRepeats;
    forall n: string ensures Filter(After(m, call).Listeners(n), mine) == Filter(m.Listeners(n), mine) {
      ListenersAfter(m, call, n);
      match call {
        case Register(name, cb) => FilterAppend(m.Listeners(n), cb, mine);
        case Unregister(name, cb) => FilterRemove(m.Listeners(n), cb, mine);
        case _ =>
      }
    }
  }

  lemma RegisterMatches(rec: map<string, seq<Waiting>>, m: Manager, mine: set<nat>, name: string, cb: nat, w: nat)
    requires Matches(rec, m, mine) && w !in mine && Outcome(m, Register(name, w)) == Ok
    requires forall n: string :: w !in m.Listeners(n)
    ensures Matches(rec[name := Recorded(rec, name) + [(cb, w)]], After(m, Register(name, w)), mine + {w})
  {
    hide After, Outcome, Manager.Listeners, Filter;
    var rec2, m2 := rec[name := Recorded(rec, name) + [(cb, w)]], After(m, Register(name, w));
    forall n: string
      ensures Filter(m2.Listeners(n), mine + {w}) == Waiters(Recorded(rec2, n)) && NoRepeats(Waiters(Recorded(rec2, n)))
    {
      ListenersAfter(m, Register(name, w), n);
      FilterGrows(m.Listeners(n), mine, w);
      FilterAppend(m.Listeners(n), w, mine + {w});
      FilterFrom(m.Listeners(n), mine, w);
      assert n == name ==> Waiters(Recorded(rec2, n)) == Waiters(Recorded(rec, n)) + [w];
    }
  }

  lemma {:induction false} FilterFrom(s: seq<nat>, mine: set<nat>, x: nat)
    ensures x in Filter(s, mine) <==> x in s && x in mine
  {
    if s != [] { FilterFrom(s[1..], mine, x); }
  }

  lemma EraseMatches(rec: map<string, seq<Waiting>>, m: Manager, mine: set<nat>, name: string, i: nat)
    requires Matches(rec, m, mine) && name in rec && i < |rec[name]|
    ensures Matches(rec[name := rec[name][..i] + rec[name][i + 1..]], After(m, Unregister(name, rec[name][i].1)), mine)
    ensures forall n: string ::
              Rest(After(m, Unregister(name, rec[name][i].1)).Listeners(n), mine) == Rest(m.Listeners(n), mine)
  {
    hide After, Outcome, Manager.Listeners, Filter, RemoveFirst, NoRepeats, Rest;
    var w := rec[name][i].1;
    var rec2, m2 := rec[name := rec[name][..i] + rec[name][i + 1..]], After(m, Unregister(name, w));
    assert NoRepeats(Waiters(Recorded(rec, name)));
    EraseWaiter(rec[name], i);
    assert Waiters(rec[name])[i] == w;
    FilterFrom(m.Listeners(name), mine, w);
    forall n: string
      ensures Filter(m2.Listeners(n), mine) == Waiters(Recorded(rec2, n)) && NoRepeats(Waiters(Recorded(rec2, n)))
      ensures Rest(m2.Listeners(n), mine) == Rest(m.Listeners(n), mine)
    {
      RestKept(m.Listeners(n), w, mine);
      assert NoRepeats(Waiters(Recorded(rec, n))) && Filter(m.Listeners(n), mine) == Waiters(Recorded(rec, n));
      ListenersAfter(m, Unregister(name, w), n);
      FilterRemove(m.Listeners(n), w, mine);
    }
  }

  lemma NoticeMeansBound(m: Manager, call: Call, name: string, cb: nat)
    requires (name, cb) in Notices(m, call)
    ensures name in After(m, call).services
  {
    hide FirstSlash, ValidName;
  }

  // ---------------------------------------------------------------- the class

  datatype Waited = Refused | Blocked | Woken

  class CpcServiceManagerShim {
    const mTheRealServiceManager: CpcServiceManager
    var mNameToCallback: map<string, seq<Waiting>>
    ghost var mine: set<nat> // the waiter objects made so far

    /** The record agrees with the registry, and neither keeps an empty list. */
    ghost predicate Valid()
      reads this, mTheRealServiceManager
    {
      && Matches(mNameToCallback, Registry(), mine) && Registry().Tidy() && NULL !in mine
      && forall n :: n in mNameToCallback ==> mNameToCallback[n] != []
    }

    ghost function Registry(): Manager
      reads mTheRealServiceManager
    {
      mTheRealServiceManager.Here().mgr
    }

    /** `w` is a new waiter object. */
    ghost predicate IsNew(w: nat)
      reads this`mine, mTheRealServiceManager
    {
      w != NULL && w !in mine && forall n: string :: w !in Registry().Listeners(n)
    }

    constructor (mgr: CpcServiceManager)
      requires mgr.Here().mgr.Tidy()
      ensures Valid() && mTheRealServiceManager == mgr && mNameToCallback == map[]
    {
      mTheRealServiceManager, mNameToCallback, mine := mgr, map[], {};
      new;
      forall n: string ensures Filter(Registry().Listeners(n), {}) == [] {
        FilterNothing(Registry().Listeners(n));
      }
    }

    /** registerForNotifications; `waiter` is the new object that forwards to `cb`. */
    method RegisterForNotifications(name: string, cb: nat, waiter: nat) returns (status: ClientStatus)
      requires Valid() && IsNew(waiter)
      modifies this`mNameToCallback, this`mine, mTheRealServiceManager
      ensures Valid() && (status == Fine <==> ValidName(name))
      ensures status == Fine ==>
                && Registry() == After(old(Registry()), Register(name, waiter)) && mine == old(mine) + {waiter}
                && mNameToCallback
                   == old(mNameToCallback)[name := Recorded(old(mNameToCallback), name) + [(cb, waiter)]]
                && mTheRealServiceManager.told
                   == old(mTheRealServiceManager.told) + Notices(old(Registry()), Register(name, waiter))
      ensures status != Fine ==> unchanged(this) && unchanged(mTheRealServiceManager)
    {
      hide After, Notices, Matches, Manager.Listeners;
      var valid := mTheRealServiceManager.IsValidServiceName(name);
      if !valid {
        return BadValue;
      }
      RegisterMatches(mNameToCallback, Registry(), mine, name, cb, waiter);
      StaysTidy(Registry(), Register(name, waiter));
      var remote := mTheRealServiceManager.RegisterForNotifications(name, waiter);
      if remote != Ok {
        return BadValue;
      }
      if name !in mNameToCallback {
        mNameToCallback := mNameToCallback[name := []];
      }
      mNameToCallback := mNameToCallback[name := mNameToCallback[name] + [(cb, waiter)]];
      mine := mine + {waiter};
      assert mNameToCallback == old(mNameToCallback)[name := Recorded(old(mNameToCallback), name) + [(cb, waiter)]];
      status := Fine;
    }

    /** unregisterForNotifications: every registration of `cb` under the name goes, here and in the registry. */
    method UnregisterForNotifications(name: string, cb: nat) returns (status: ClientStatus)
      requires Valid()
      modifies this`mNameToCallback, mTheRealServiceManager
      ensures Valid() && (status == Fine <==> name in old(mNameToCallback))
      ensures forall n: string :: Recorded(mNameToCallback, n) ==
                (if n == name then Drop(Recorded(old(mNameToCallback), n), cb) else Recorded(old(mNameToCallback), n))
      ensures Registry().services == old(Registry()).services
      ensures forall n: string :: Rest(Registry().Listeners(n), mine) == Rest(old(Registry()).Listeners(n), mine)
    {
      hide After, Notices, Matches, Manager.Listeners, Manager.Tidy, Drop, Rest;
      if name !in mNameToCallback {
        DropKeeps([], cb);
        return BadValue;
      }
      var waiters := mNameToCallback[name];
      var i := 0;
      while i < |waiters|
        invariant i <= |waiters| && name in mNameToCallback && mNameToCallback == old(mNameToCallback)[name := waiters]
        invariant Matches(mNameToCallback, Registry(), mine) && Registry().Tidy()
        invariant Registry().services == old(Registry()).services
        invariant forall k :: 0 <= k < i ==> waiters[k].0 != cb
        invariant Drop(waiters, cb) == Drop(old(mNameToCallback)[name], cb)
        invariant forall n: string :: Rest(Registry().Listeners(n), mine) == Rest(old(Registry()).Listeners(n), mine)
        decreases |waiters| - i
      {
        if waiters[i].0 == cb {
          var w := waiters[i].1;
          EraseMatches(mNameToCallback, Registry(), mine, name, i);
          StaysTidy(Registry(), Unregister(name, w));
          SameServices(Registry(), Unregister(name, w));
          DropErase(waiters, i, cb);
          waiters := waiters[..i] + waiters[i + 1..];
          mNameToCallback := mNameToCallback[name := waiters];
          var remote := mTheRealServiceManager.UnregisterForNotifications(name, w);
        } else {
          i := i + 1;
        }
      }
      DropKeeps(waiters, cb);
      if waiters == [] {
        EmptyMatches(mNameToCallback, Registry(), mine, name);
        mNameToCallback := mNameToCallback - {name};
      }
      status := Fine;
    }

    /** A call by another client. */
    method Perform(call: Call)
      requires Valid() && Foreign(call, mine)
      modifies mTheRealServiceManager
      ensures Valid() && Registry() == After(old(Registry()), call)
      ensures mTheRealServiceManager.told == old(mTheRealServiceManager.told) + Notices(old(Registry()), call)
    {
      hide Matches, After, Manager.Listeners, Manager.Tidy, ValidName, FirstSlash;
      OthersKeepMatch(mNameToCallback, Registry(), mine, call);
      StaysTidy(Registry(), call);
      match call {
        case AddService(name, binder) => var status := mTheRealServiceManager.AddService(name, binder);
        case Register(name, cb) => var status := mTheRealServiceManager.RegisterForNotifications(name, cb);
        case Unregister(name, cb) => var status := mTheRealServiceManager.UnregisterForNotifications(name, cb);
        case BinderDied(who) => mTheRealServiceManager.BinderDied(who);
      }
    }

    /** The waiting client's condition: its callback has run since `mark`. */
    method IsReady(mark: nat, name: string, waiter: nat) returns (ready: bool)
      requires mark <= |mTheRealServiceManager.told|
      ensures ready <==> (name, waiter) in mTheRealServiceManager.told[mark..]
    {
      ready := (name, waiter) in mTheRealServiceManager.told[mark..];
    }

    /** waitForService, while other clients make the calls `others`. It wakes exactly when the name is bound at some
        moment, and leaves no waiter behind. */
    method WaitForService(name: string, cb: nat, waiter: nat, others: seq<Call>) returns (r: Waited)
      requires Valid() && IsNew(waiter) && forall w :: w in Recorded(mNameToCallback, name) ==> w.0 != cb
      requires forall i :: 0 <= i < |others| ==> Foreign(others[i], mine + {waiter})
      modifies this`mNameToCallback, this`mine, mTheRealServiceManager
      ensures Valid() && (r == Refused <==> !ValidName(name))
      ensures r != Refused ==>
                (r == Woken <==> EverBound(After(old(Registry()), Register(name, waiter)), others, |others|, name))
      ensures r != Blocked ==> forall n: string :: Recorded(mNameToCallback, n) == Recorded(old(mNameToCallback), n)
    {
      hide After, Notices, Matches, Manager.Listeners, Manager.Tidy, Foreign, Drop;
      var mark := |mTheRealServiceManager.told|;
      var status := RegisterForNotifications(name, cb, waiter);
      if status != Fine {
        return Refused;
      }
      ghost var m, list := Registry(), Recorded(old(mNameToCallback), name);
      FirstNotice(old(Registry()), others, name, waiter);
      var ready := IsReady(mark, name, waiter);
      var i := 0;
      while !ready && i < |others|
        invariant Valid() && i <= |others| && Registry() == State(m, others, i) && mine == old(mine) + {waiter}
        invariant mNameToCallback == old(mNameToCallback)[name := list + [(cb, waiter)]]
        invariant mark <= |mTheRealServiceManager.told|
        invariant ready <==> (name, waiter) in mTheRealServiceManager.told[mark..]
        invariant if ready then name in Registry().services else !EverBound(m, others, i, name)
        decreases |others| - i
      {
        Listening(name, |list|);
        StepOfWait(m, others, i, name, waiter, mine);
        ghost var told := mTheRealServiceManager.told;
        Perform(others[i]);
        TellMore(told, Notices(State(m, others, i), others[i]), mark, (name, waiter));
        i := i + 1;
        ready := IsReady(mark, name, waiter);
      }
      if !ready {
        return Blocked;
      }
      status := UnregisterForNotifications(name, cb);
      DropLast(list, (cb, waiter));
      r := Woken;
    }

    /** The name split and the search through the list in getService. */
    method Resolve(name: string) returns (r: Place)
      requires Valid()
      ensures r == Resolved(Registry(), name)
    {
      hide FirstSlash, Matches, ValidName;
      if FirstSlash(name) < |name| {
        return Place(CpuPart(name), ServicePart(name));
      }
      ghost var services := mTheRealServiceManager.mNameToService;
      var list, names := mTheRealServiceManager.ListServices();
      for i := 0 to |list|
        invariant forall k :: 0 <= k < i ==> names[k] != name
      {
        ListedSplits(names[i], services[names[i]]);
        if name == ServicePart(list[i]) {
          return Place(CpuPart(list[i]), name);
        }
      }
      r := Nowhere;
    }

    /** A recorded waiter is in the registry's list. */
    lemma Listening(name: string, i: nat)
      requires Valid() && i < |Recorded(mNameToCallback, name)|
      ensures Recorded(mNameToCallback, name)[i].1 in Registry().Listeners(name)
    {
      hide Manager.Listeners, Manager.Tidy, Filter;
      var w := Recorded(mNameToCallback, name)[i].1;
      assert Waiters(Recorded(mNameToCallback, name))[i] == w;
      FilterFrom(Registry().Listeners(name), mine, w);
    }
  }

  // ---------------------------------------------------------------- finding a service

  /** Where getService connects to. */
  datatype Place = Nowhere | Place(cpu: string, service: string)

  /** A name with a slash is split at the first one; any other name is looked up among the listed services. */
  function Resolved(m: Manager, name: string): Place {
    if FirstSlash(name) < |name| then Place(CpuPart(name), ServicePart(name))
    else if name in m.services then Place(m.services[name].cpuname, name)
    else Nowhere
  }

  /** A bound service is found under its own name exactly when that name has no slash, though the registry accepts
      names with slashes. */
  lemma FoundUnlessSlashed(m: Manager, name: string)
    requires name in m.services
    ensures Resolved(m, name) == Place(m.services[name].cpuname, name) <==> '/' !in name
  {
    var i := FirstSlash(name);
    if i < |name| {
      assert name[i] == '/' && |ServicePart(name)| < |name|;
    } else {
      assert name[..i] == name;
    }
  }

  /** A name that is given with its CPU is split at the first slash, whatever is bound. */
  lemma GivenPlace(m: Manager, cpu: string, service: string)
    requires '/' !in cpu
    ensures Resolved(m, cpu + "/" + service) == Place(cpu, service)
  {
    SlashAfter(cpu, service);
  }

  /** What was registered last under a name without a slash is what is found under it, on the CPU that was given with
      it, also when the name was bound before; and no other name is found elsewhere than before. */
  lemma RegisteredIsFound(m: Manager, cpu: string, service: string, binder: nat, other: string)
    requires '/' !in cpu && '/' !in service && ValidName(service)
    ensures var m' := After(m, AddService(cpu + "/" + service, binder));
            && Resolved(m', service) == Place(cpu, service) && m'.services[service].binder == binder
            && Listed(service, m'.services[service]) == cpu + "/" + service
            && (other != service ==> Resolved(m', other) == Resolved(m, other))
  {
    hide ValidName;
    SlashAfter(cpu, service);
    FirstSlashMeans(service);
  }

  lemma FirstSlashMeans(s: string)
    requires '/' !in s
    ensures FirstSlash(s) == |s|
  {
    if FirstSlash(s) < |s| { assert s[FirstSlash(s)] == '/'; }
  }

  /** Registering tells the newcomer exactly when the name is bound. */
  lemma FirstNotice(m: Manager, others: seq<Call>, name: string, w: nat)
    requires Outcome(m, Register(name, w)) == Ok
    ensures (name, w) in Notices(m, Register(name, w)) <==> name in After(m, Register(name, w)).services
    ensures EverBound(After(m, Register(name, w)), others, 0, name) <==> name in After(m, Register(name, w)).services
  {
    hide FirstSlash, ValidName;
    var m2 := After(m, Register(name, w));
    assert State(m2, others, 0) == m2;
  }

  /** While the waiter is registered, a step tells it exactly when it binds the name. */
  lemma StepOfWait(m: Manager, others: seq<Call>, i: nat, name: string, w: nat, mine: set<nat>)
    requires i < |others| && !EverBound(m, others, i, name) && w in State(m, others, i).Listeners(name)
    requires Foreign(others[i], mine) && w in mine
    ensures (name, w) in Notices(State(m, others, i), others[i]) <==> name in State(m, others, i + 1).services
    ensures name in State(m, others, i + 1).services <==> EverBound(m, others, i + 1, name)
  {
    hide After, Notices, Manager.Listeners, Outcome;
    var s := State(m, others, i);
    assert name !in s.services && State(m, others, i + 1) == After(s, others[i]);
    if (name, w) in Notices(s, others[i]) { NoticeMeansBound(s, others[i], name, w); }
    if name in After(s, others[i]).services {
      StillListening(s, others[i], name, w, mine);
      WokenByStep(s, others[i], name, w, false);
    }
  }

  lemma StillListening(s: Manager, call: Call, name: string, w: nat, mine: set<nat>)
    requires w in s.Listeners(name) && Foreign(call, mine) && w in mine
    ensures w in After(s, call).Listeners(name)
  {
    hide After, Outcome, Manager.Listeners, Filter;
    ListenersAfter(s, call, name);
    if call.Unregister? && call.name == name {
      FilterRemove(s.Listeners(name), call.callback, mine);
      FilterFrom(s.Listeners(name), mine, w);
      FilterFrom(RemoveFirst(s.Listeners(name), call.callback), mine, w);
    }
  }

  lemma TellMore(told: seq<(string, nat)>, more: seq<(string, nat)>, mark: nat, x: (string, nat))
    requires mark <= |told|
    ensures x in (told + more)[mark..] <==> x in told[mark..] || x in more
  {
    assert (told + more)[mark..] == told[mark..] + more;
  }

  /** The name has been bound at some moment of the others' calls. */
  ghost predicate EverBound(m: Manager, others: seq<Call>, n: nat, name: string)
    requires n <= |others|
  {
    exists k: nat :: k <= n && name in State(m, others, k).services
  }

  lemma SameServices(m: Manager, call: Call)
    requires call.Register? || call.Unregister?
    ensures After(m, call).services == m.services
  {
  }

  lemma EmptyMatches(rec: map<string, seq<Waiting>>, m: Manager, mine: set<nat>, name: string)
    requires Matches(rec, m, mine) && name in rec && rec[name] == []
    ensures Matches(rec - {name}, m, mine)
  {
    hide Manager.Listeners, Filter, NoRepeats;
    forall n: string ensures Recorded(rec - {name}, n) == Recorded(rec, n) {
    }
  }

  lemma {:induction false} FilterNothing(s: seq<nat>)
    ensures Filter(s, {}) == []
  {
    if s != [] { FilterNothing(s[1..]); }
  }
}
