/** The cross-CPU service registry (CpcServiceManager.cpp): bound names, waiting callbacks, and the death link that
    the registry takes for each bound name. A callback does not call back into the registry. */
module CpcServiceManager {

  const NULL: nat := 0
  const MAX_NAME: nat := 127

  datatype Status = Ok | IllegalArgument | NullPointer | IllegalState

  datatype Service = Service(binder: nat, cpuname: string)

  datatype Manager = Manager(services: map<string, Service>, callbacks: map<string, seq<nat>>) {
    function Listeners(name: string): seq<nat> {
      if name in callbacks then callbacks[name] else []
    }

    /** No listener list is kept empty, and no stored CPU name holds a slash. */
    predicate Tidy() {
      && (forall n :: n in callbacks ==> callbacks[n] != [])
      && (forall n :: n in services ==> '/' !in services[n].cpuname && ValidName(n))
    }
  }

  datatype Call =
    | AddService(name: string, binder: nat)
    | Register(name: string, callback: nat)
    | Unregister(name: string, callback: nat)
    | BinderDied(who: nat)

  // ---------------------------------------------------------------- names

  predicate ValidChar(c: char) {
    c == '_' || c == '-' || c == '.' || c == '/' || 'a' <= c <= 'z' || 'A' <= c <= 'Z' || '0' <= c <= '9'
  }

  predicate ValidName(s: string) {
    0 < |s| <= MAX_NAME && forall i :: 0 <= i < |s| ==> ValidChar(s[i])
  }

  /** Where the first slash is; the length when there is none. */
  function FirstSlash(s: string): (i: nat)
    ensures i <= |s| && '/' !in s[..i] && (i < |s| ==> s[i] == '/')
  {
    if s == [] || s[0] == '/' then 0
    else
      assert s[..1 + FirstSlash(s[1..])] == [s[0]] + s[1..][..FirstSlash(s[1..])];
      1 + FirstSlash(s[1..])
  }

  function CpuPart(name: string): string { name[..FirstSlash(name)] }

  /** With no slash, both parts are the whole name. */
  function ServicePart(name: string): string {
    if FirstSlash(name) == |name| then name else name[FirstSlash(name) + 1..]
  }

  /** An entry of listServices. */
  function Listed(name: string, s: Service): string { s.cpuname + "/" + name }

  /** Splitting a listed entry at its first slash gives back the stored parts, though service names may hold slashes. */
  lemma {:induction false} ListedSplits(name: string, s: Service)
    requires '/' !in s.cpuname
    ensures CpuPart(Listed(name, s)) == s.cpuname && ServicePart(Listed(name, s)) == name
  {
    SlashAfter(s.cpuname, name);
  }

  lemma {:induction false} SlashAfter(cpu: string, rest: string)
    requires '/' !in cpu
    ensures FirstSlash(cpu + "/" + rest) == |cpu|
  {
    var s := cpu + "/" + rest;
    if cpu != [] {
      assert s[1..] == cpu[1..] + "/" + rest;
      SlashAfter(cpu[1..], rest);
    }
  }

  // ---------------------------------------------------------------- what each call does

  function RemoveFirst(s: seq<nat>, x: nat): (r: seq<nat>)
    ensures |r| == if x in s then |s| - 1 else |s|
  {
    if s == [] then [] else if s[0] == x then s[1..] else [s[0]] + RemoveFirst(s[1..], x)
  }

  function Without(m: map<string, Service>, who: nat): map<string, Service> {
    map n | n in m && m[n].binder != who :: m[n]
  }

  function Outcome(m: Manager, call: Call): Status {
    match call
    case AddService(name, _) => if ValidName(ServicePart(name)) then Ok else IllegalArgument
    case Register(name, cb) => if !ValidName(name) then IllegalArgument else if cb == NULL then NullPointer else Ok
    case Unregister(name, cb) => if cb in m.Listeners(name) then Ok else IllegalState
    case BinderDied(_) => Ok
  }

  function SetListeners(m: Manager, name: string, list: seq<nat>): Manager {
    if list == [] then m.(callbacks := m.callbacks - {name}) else m.(callbacks := m.callbacks[name := list])
  }

  function After(m: Manager, call: Call): Manager {
    if Outcome(m, call) != Ok then m
    else match call
      case AddService(name, binder) => m.(services := m.services[ServicePart(name) := Service(binder, CpuPart(name))])
      case Register(name, cb) => SetListeners(m, name, m.Listeners(name) + [cb])
      case Unregister(name, cb) => SetListeners(m, name, RemoveFirst(m.Listeners(name), cb))
      case BinderDied(who) => m.(services := Without(m.services, who))
  }

  /** The name that a call announces, and to whom. */
  function Notices(m: Manager, call: Call): seq<(string, nat)> {
    if Outcome(m, call) != Ok then []
    else match call
      case AddService(name, _) => Announced(ServicePart(name), m.Listeners(ServicePart(name)))
      case Register(name, cb) => if name in m.services then [(name, cb)] else []
      case _ => []
  }

  function Announced(name: string, list: seq<nat>): seq<(string, nat)> {
    seq(|list|, i requires 0 <= i < |list| => (name, list[i]))
  }

  /** Every call keeps the registry tidy. */
  lemma StaysTidy(m: Manager, call: Call)
    requires m.Tidy()
    ensures After(m, call).Tidy()
  {
    if call.AddService? {
      assert '/' !in CpuPart(call.name);
    }
  }

  // ---------------------------------------------------------------- no lost wake-up

  function State(m: Manager, run: seq<Call>, i: nat): Manager
    requires i <= |run|
  {
    if i == 0 then m else After(State(m, run, i - 1), run[i - 1])
  }

  /** In every run, a callback that registered after moment `i` and is still registered at moment `k`, when the name is
      bound, has been told about the name in between. */
  lemma {:induction false} NoLostWakeUp(m: Manager, run: seq<Call>, i: nat, k: nat, name: string, cb: nat)
    returns (t: nat)
    requires i < k <= |run|
    requires cb !in State(m, run, i).Listeners(name)
    requires forall j :: i < j <= k ==> cb in State(m, run, j).Listeners(name)
    requires name in State(m, run, k).services
    ensures i <= t < k && (name, cb) in Notices(State(m, run, t), run[t])
  {
    hide After, Notices, Outcome, Manager.Listeners;
    t := k - 1;
    var s := State(m, run, t);
    assert State(m, run, k) == After(s, run[t]);
    if t > i && name in s.services {
      t := NoLostWakeUp(m, run, i, t, name, cb);
    } else {
      WokenByStep(s, run[t], name, cb, t == i);
    }
  }

  /** A step that binds a name tells everyone registered for it; a step that registers tells the newcomer if it is
      bound. */
  lemma WokenByStep(s: Manager, call: Call, name: string, cb: nat, joins: bool)
    requires joins <==> cb !in s.Listeners(name)
    requires cb in After(s, call).Listeners(name) && name in After(s, call).services && (joins || name !in s.services)
    ensures (name, cb) in Notices(s, call)
  {
    match call {
      case AddService(n, binder) =>
        var list := s.Listeners(name);
        assert !joins && ServicePart(n) == name;
        var j :| 0 <= j < |list| && list[j] == cb;
        assert Announced(name, list)[j] == (name, cb);
      case Register(n, c) =>
        assert joins;
        if n == name { LastOrBefore(s.Listeners(n), c, cb); }
      case Unregister(n, c) =>
        RemovedFrom(s.Listeners(n), c, cb);
      case BinderDied(who) =>
    }
  }

  lemma LastOrBefore(list: seq<nat>, c: nat, x: nat)
    requires x in list + [c] && x !in list
    ensures x == c
  {
  }

  lemma {:induction false} RemovedFrom(list: seq<nat>, c: nat, x: nat)
    ensures x in RemoveFirst(list, c) ==> x in list
  {
    if list != [] && list[0] != c { RemovedFrom(list[1..], c, x); }
  }

  // ---------------------------------------------------------------- death links

  function NamesOf(services: map<string, Service>, w: nat): set<string> {
    set n | n in services && services[n].binder == w
  }

  /** The registry and what it holds on any one binder `w`: whether that lives, and the death links on it. */
  datatype World = World(mgr: Manager, alive: bool, links: nat)

  datatype Event = Called(call: Call) | Dies

  /** Linking to a dead binder fails; so does unlinking. */
  function Linked(links: nat, alive: bool): nat { if alive then links + 1 else links }

  function Unlinked(links: nat, alive: bool): nat { if alive && links > 0 then links - 1 else links }

  /** addService links the new binder before it unlinks the one it replaces. */
  function LinksAfter(x: World, call: Call, w: nat): nat {
    if !call.AddService? || Outcome(x.mgr, call) != Ok then x.links
    else
      var linked := if call.binder == w then Linked(x.links, x.alive) else x.links;
      if ServicePart(call.name) in NamesOf(x.mgr.services, w) then Unlinked(linked, x.alive) else linked
  }

  function Next(x: World, e: Event, w: nat): World {
    match e
    case Called(call) => World(After(x.mgr, call), x.alive, LinksAfter(x, call, w))
    case Dies => World(x.mgr, false, 0) // every link is reported and gone
  }

  /** The death of `w` is only reported once it is dead. */
  predicate Enabled(x: World, e: Event, w: nat) {
    e == Called(BinderDied(w)) ==> !x.alive
  }

  function Later(run: seq<Event>, i: nat, w: nat): World
    requires i <= |run|
  {
    if i == 0 then World(Manager(map[], map[]), true, 0) else Next(Later(run, i - 1, w), run[i - 1], w)
  }

  /** In every run, a live binder has as many death links as names, whatever was registered twice; a dead one has
      none. */
  lemma {:induction false} LinksMatchNames(run: seq<Event>, i: nat, w: nat)
    requires i <= |run| && forall j :: 0 <= j < i ==> Enabled(Later(run, j, w), run[j], w)
    ensures var x := Later(run, i, w); x.links == if x.alive then |NamesOf(x.mgr.services, w)| else 0
    ensures Later(run, i, w).mgr.Tidy()
  {
    hide After, Next, LinksAfter, Enabled, Manager.Tidy;
    if i == 0 {
      EmptyWorld(w);
    } else {
      LinksMatchNames(run, i - 1, w);
      LinksStep(Later(run, i - 1, w), run[i - 1], w);
    }
  }

  lemma EmptyWorld(w: nat)
    ensures NamesOf(map[], w) == {} && Manager(map[], map[]).Tidy()
  {
  }

  lemma LinksStep(x: World, e: Event, w: nat)
    requires x.links == if x.alive then |NamesOf(x.mgr.services, w)| else 0
    requires Enabled(x, e, w) && x.mgr.Tidy()
    ensures var y := Next(x, e, w); y.links == (if y.alive then |NamesOf(y.mgr.services, w)| else 0) && y.mgr.Tidy()
  {
    hide FirstSlash, ValidName, Manager.Tidy;
    if e.Called? {
      StaysTidy(x.mgr, e.call);
      var s := x.mgr.services;
      match e.call {
        case AddService(name, binder) => NamesAdd(s, ServicePart(name), Service(binder, CpuPart(name)), w);
        case BinderDied(who) => assert who != w ==> NamesOf(Without(s, who), w) == NamesOf(s, w);
        case _ =>
      }
    }
  }

  lemma NamesAdd(s: map<string, Service>, n: string, v: Service, w: nat)
    ensures NamesOf(s[n := v], w) == if v.binder == w then NamesOf(s, w) + {n} else NamesOf(s, w) - {n}
    ensures |NamesOf(s[n := v], w)|
         == |NamesOf(s, w)| - (if n in NamesOf(s, w) then 1 else 0) + (if v.binder == w then 1 else 0)
  {
    assert |NamesOf(s, w) - {n}| == |NamesOf(s, w)| - (if n in NamesOf(s, w) then 1 else 0);
    assert NamesOf(s, w) - {n} + {n} == NamesOf(s, w) + {n};
  }

  // ---------------------------------------------------------------- the class

  class CpcServiceManager {
    var mNameToService: map<string, Service>
    var mNameToCallback: map<string, seq<nat>>
    ghost const w: nat                  // any one binder
    ghost var alive: bool
    ghost var links: nat
    var told: seq<(string, nat)>        // the onRegistration calls sent so far

    ghost function Here(): World
      reads this
    {
      World(Manager(mNameToService, mNameToCallback), alive, links)
    }

    constructor (ghost w: nat)
      ensures Here() == World(Manager(map[], map[]), true, 0) && told == [] && this.w == w
    {
      mNameToService, mNameToCallback := map[], map[];
      alive, links, told, this.w := true, 0, [], w;
    }

    /** linkToDeath on `binder`; its failure is only logged. */
    method LinkToDeath(binder: nat)
      modifies this`links
      ensures links == if binder == w then Linked(old(links), alive) else old(links)
    {
      if binder == w { links := Linked(links, alive); }
    }

    method UnlinkToDeath(binder: nat)
      modifies this`links
      ensures links == if binder == w then Unlinked(old(links), alive) else old(links)
    {
      if binder == w { links := Unlinked(links, alive); }
    }

    method OnRegistration(name: string, cb: nat)
      modifies this`told
      ensures told == old(told) + [(name, cb)]
    {
      told := told + [(name, cb)];
    }

    /** isValidServiceName. */
    method IsValidServiceName(name: string) returns (valid: bool)
      ensures valid <==> ValidName(name)
    {
      if |name| == 0 || |name| > MAX_NAME {
        return false;
      }
      for i := 0 to |name|
        invariant forall k :: 0 <= k < i ==> ValidChar(name[k])
      {
        var c := name[i];
        if c == '_' || c == '-' || c == '.' || c == '/' { continue; }
        if 'a' <= c <= 'z' { continue; }
        if 'A' <= c <= 'Z' { continue; }
        if '0' <= c <= '9' { continue; }
        return false;
      }
      valid := true;
    }

    method AddService(name: string, binder: nat) returns (status: Status)
      modifies this
      ensures Here() == Next(old(Here()), Called(Call.AddService(name, binder)), w)
      ensures status == if ValidName(ServicePart(name)) then Ok else IllegalArgument
      ensures mNameToCallback == old(mNameToCallback)
      ensures mNameToService == if status == Ok
                                then old(mNameToService)[ServicePart(name) := Service(binder, CpuPart(name))]
                                else old(mNameToService)
      ensures told == old(told) + Notices(old(Here()).mgr, Call.AddService(name, binder))
    {
      hide FirstSlash, ValidName;
      var cpuname, servname := CpuPart(name), ServicePart(name);
      var valid := IsValidServiceName(servname);
      if !valid {
        return IllegalArgument;
      }
      LinkToDeath(binder);
      if servname in mNameToService {
        UnlinkToDeath(mNameToService[servname].binder);
      }
      mNameToService := mNameToService[servname := Service(binder, cpuname)];
      if servname in mNameToCallback {
        var list := mNameToCallback[servname];
        for i := 0 to |list|
          invariant told == old(told) + Announced(servname, list[..i])
          invariant unchanged(`mNameToCallback)
          invariant Here() == Next(old(Here()), Called(Call.AddService(name, binder)), w)
        {
          OnRegistration(servname, list[i]);
        }
        assert list[..|list|] == list;
      }
      status := Ok;
    }

    method ListServices() returns (list: seq<string>, ghost names: seq<string>)
      ensures |list| == |names| && forall i, j :: 0 <= i < j < |names| ==> names[i] != names[j]
      ensures forall n :: n in names <==> n in mNameToService
      ensures forall i :: 0 <= i < |names| ==> list[i] == Listed(names[i], mNameToService[names[i]])
      ensures |list| == |mNameToService|
      ensures forall n :: n in mNameToService ==> Listed(n, mNameToService[n]) in list
    {
      list, names := [], [];
      var todo := mNameToService.Keys;
      while todo != {}
        invariant todo <= mNameToService.Keys && |list| + |todo| == |mNameToService|
        invariant forall n :: n in mNameToService && n !in todo ==> Listed(n, mNameToService[n]) in list
        invariant forall n :: n in names <==> n in mNameToService && n !in todo
        invariant |list| == |names| && forall i, j :: 0 <= i < j < |names| ==> names[i] != names[j]
        invariant forall i :: 0 <= i < |names| ==> list[i] == Listed(names[i], mNameToService[names[i]])
        decreases |todo|
      {
        var n :| n in todo;
        todo := todo - {n};
        list, names := list + [Listed(n, mNameToService[n])], names + [n];
      }
    }

    method RegisterForNotifications(name: string, cb: nat) returns (status: Status)
      modifies this`mNameToCallback, this`told
      ensures Here() == Next(old(Here()), Called(Register(name, cb)), w)
      ensures status == if !ValidName(name) then IllegalArgument else if cb == NULL then NullPointer else Ok
      ensures var list := old(Here()).mgr.Listeners(name);
              mNameToCallback == if status == Ok then old(mNameToCallback)[name := list + [cb]]
                                 else old(mNameToCallback)
      ensures told == old(told) + Notices(old(Here()).mgr, Register(name, cb))
    {
      var valid := IsValidServiceName(name);
      if !valid {
        return IllegalArgument;
      }
      if cb == NULL {
        return NullPointer;
      }
      if name !in mNameToCallback {
        mNameToCallback := mNameToCallback[name := []];
      }
      mNameToCallback := mNameToCallback[name := mNameToCallback[name] + [cb]];
      if name in mNameToService {
        OnRegistration(name, cb);
      }
      status := Ok;
    }

    method UnregisterForNotifications(name: string, cb: nat) returns (status: Status)
      modifies this`mNameToCallback
      ensures Here() == Next(old(Here()), Called(Unregister(name, cb)), w)
      ensures var list := old(Here()).mgr.Listeners(name);
              && status == (if cb in list then Ok else IllegalState)
              && (status != Ok ==> mNameToCallback == old(mNameToCallback))
              && (status == Ok ==> exists i :: ErasedAt(old(mNameToCallback), mNameToCallback, name, list, i, cb))
    {
      if name in mNameToCallback {
        var listeners := mNameToCallback[name];
        var i := 0;
        while i < |listeners|
          invariant i <= |listeners| && cb !in listeners[..i]
          invariant unchanged(`mNameToCallback)
        {
          if listeners[i] == cb {
            EraseIsRemoveFirst(listeners, i);
            ghost var list := listeners;
            listeners := listeners[..i] + listeners[i + 1..];
            mNameToCallback := mNameToCallback[name := listeners];
            if listeners == [] {
              mNameToCallback := mNameToCallback - {name};
            }
            assert ErasedAt(old(mNameToCallback), mNameToCallback, name, list, i, cb);
            return Ok;
          }
          i := i + 1;
        }
      }
      status := IllegalState;
    }

    /** Exactly the names bound to the dead binder go. */
    method BinderDied(who: nat)
      modifies this`mNameToService
      ensures Here() == Next(old(Here()), Called(Call.BinderDied(who)), w)
      ensures forall n :: n in mNameToService <==> n in old(mNameToService) && old(mNameToService)[n].binder != who
    {
      var todo := mNameToService.Keys;
      while todo != {}
        invariant todo <= mNameToService.Keys <= old(mNameToService.Keys)
        invariant forall n :: n in mNameToService ==> mNameToService[n] == old(mNameToService)[n]
        invariant forall n :: n in old(mNameToService) ==>
                    (n in mNameToService <==> n in todo || old(mNameToService)[n].binder != who)
        decreases |todo|
      {
        var n :| n in todo;
        todo := todo - {n};
        if who == mNameToService[n].binder {
          mNameToService := mNameToService - {n};
        }
      }
      assert mNameToService == Without(old(mNameToService), who);
    }
  }

  /** Entry `i` of a listener list, the first that is `cb`, has gone, and with the last one the list. */
  predicate ErasedAt(before: map<string, seq<nat>>, after: map<string, seq<nat>>, name: string,
                     list: seq<nat>, i: nat, cb: nat)
  {
    && i < |list| && list[i] == cb && cb !in list[..i]
    && after == if |list| == 1 then before - {name} else before[name := list[..i] + list[i + 1..]]
  }

  lemma {:induction false} EraseIsRemoveFirst(list: seq<nat>, i: nat)
    requires i < |list| && list[i] !in list[..i]
    ensures list[i] in list && list[..i] + list[i + 1..] == RemoveFirst(list, list[i])
  {
    if i > 0 {
      assert list[0] != list[i] by { assert list[..i][0] == list[0]; }
      assert list[1..][..i - 1] == list[..i][1..];
      EraseIsRemoveFirst(list[1..], i - 1);
    }
  }
}
