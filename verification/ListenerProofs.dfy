// The listener index agrees with the apps marked running, after every handler and over every run.

module ListenerProofs {
  import opened Words
  import opened ListenerKeys
  import opened Listeners

  function DemandOf(a: App): Demand {
    Demand(a.running, Index(EndpointOf(a)), a.port)
  }

  function DemandsOf(apps: Apps): (ds: Demands)
    ensures ds.Keys == apps.Keys
  {
    map id | id in apps :: DemandOf(apps[id])
  }

  /** The listener keys are exactly the endpoints of the apps marked running. */
  ghost predicate Agree(s: State)
  {
    AgreeOn(DemandsOf(s.apps), Ports(s.listeners), s.apps.Keys)
  }

  lemma ReleasedPorts(s: State, id: nat)
    requires id in s.apps
    ensures Ports(Released(s, id)) ==
            if s.apps[id].running then Ports(s.listeners) - {Index(EndpointOf(s.apps[id]))} else Ports(s.listeners)
  {
    PortsOfRemove(s.listeners, Index(EndpointOf(s.apps[id])));
  }

  /** Network names are what the API expects: they hold no colon. */
  ghost predicate Named(apps: Apps)
  {
    forall id :: id in apps ==> ':' !in apps[id].network
  }

  /** Another running app sits on the same endpoint. */
  ghost predicate Shared(apps: Apps, id: nat)
    requires id in apps
  {
    exists j :: j in apps && j != id && apps[j].running && EndpointOf(apps[j]) == EndpointOf(apps[id])
  }

  lemma SharedIffKey(apps: Apps, id: nat)
    requires Named(apps) && id in apps
    ensures Shared(apps, id) <==> SharesKey(DemandsOf(apps), id)
  {
    var ds := DemandsOf(apps);
    forall j | j in apps
      ensures ds[j].key == ds[id].key <==> EndpointOf(apps[j]) == EndpointOf(apps[id])
    {
      IndexInjective(EndpointOf(apps[j]), EndpointOf(apps[id]));
    }
    if Shared(apps, id) {
      var j :| j in apps && j != id && apps[j].running && EndpointOf(apps[j]) == EndpointOf(apps[id]);
      assert ds[j].running && ds[j].key == ds[id].key;
    }
    if SharesKey(ds, id) {
      var j :| j in ds && j != id && ds[j].running && ds[j].key == ds[id].key;
      assert apps[j].running && EndpointOf(apps[j]) == EndpointOf(apps[id]);
    }
  }

  /** Deleting an app keeps the agreement exactly when it is not running on an endpoint another running app uses. */
  lemma DeleteAgreesIff(s: State, id: nat, saves: bool)
    requires Agree(s) && Named(s.apps) && id in s.apps
    ensures Agree(DeleteApp(s, id, saves)) <==> !(s.apps[id].running && Shared(s.apps, id))
  {
    var ds, s' := DemandsOf(s.apps), DeleteApp(s, id, saves);
    var ds', rest := DemandsOf(s'.apps), s.apps.Keys - {id};
    assert ds'.Keys == rest;
    ReleasedPorts(s, id);
    ReleasedIff(ds, Ports(s.listeners), id);
    SharedIffKey(s.apps, id);
    if AgreeOn(ds, Ports(s'.listeners), rest) {
      OutsideIsFree(ds, ds', Ports(s'.listeners), rest, id);
    }
    if AgreeOn(ds', Ports(s'.listeners), rest) {
      OutsideIsFree(ds', ds, Ports(s'.listeners), rest, id);
    }
  }

  /** With the port granted as asked, a listener lands on the app's own key. */
  lemma AddListenerLands(ls: ListenerMap, a: App, opens: Option<int>)
    requires opens.Some? ==> opens.value == a.port
    requires var key := Index(EndpointOf(a)); key in ls ==> ls[key].port == a.port
    ensures var (key, (ls', ok)) := (Index(EndpointOf(a)), AddListener(ls, EndpointOf(a), opens));
            ok == (key in ls || opens.Some?) && Ports(ls') == if ok then Ports(ls)[key := a.port] else Ports(ls)
  {
    var key := Index(EndpointOf(a));
    assert EndpointOf(a).(port := a.port) == EndpointOf(a);
    PortsOfPut(ls, key, if key in ls then ls[key] else Socket(UsesTcp(a.network), a.port));
  }

  /** A listener already standing under the app's key has the app's port. */
  lemma StandingPort(apps: Apps, ls: PortMap, done: set<nat>, a: App)
    requires AgreeOn(DemandsOf(apps), ls, done)
    ensures var key := Index(EndpointOf(a)); key in ls ==> ls[key] == a.port
  {
    var ds, key := DemandsOf(apps), Index(EndpointOf(a));
    if key in ls {
      var j :| j in ds && j in done && Asks(ds[j], key, ls[key]);
      SameKeySamePort(EndpointOf(a), EndpointOf(apps[j]));
    }
  }

  lemma Stored(apps: Apps, ls: PortMap, a: App, ls': PortMap)
    requires AgreeOn(DemandsOf(apps), ls, apps.Keys - {a.id})
    requires ls' == if a.running then ls[Index(EndpointOf(a)) := a.port] else ls
    requires a.running && Index(EndpointOf(a)) in ls ==> ls[Index(EndpointOf(a))] == a.port
    ensures AgreeOn(DemandsOf(apps[a.id := a]), ls', apps[a.id := a].Keys)
  {
    var ds, rest := DemandsOf(apps), apps.Keys - {a.id};
    var ds' := ds[a.id := DemandOf(a)];
    DemandsOfPut(apps, a);
    OutsideIsFree(ds, ds', ls, rest, a.id);
    TakenOn(ds', ls, rest, a.id);
    assert ds'.Keys == rest + {a.id};
  }

  lemma DemandsOfPut(apps: Apps, a: App)
    ensures DemandsOf(apps[a.id := a]) == DemandsOf(apps)[a.id := DemandOf(a)]
  {
  }

  /** What Install makes of ports and apps. */
  lemma Installed(s: State, a: App, env: Env)
    requires Grants(a, env)
    requires var key := Index(EndpointOf(a)); key in s.listeners ==> s.listeners[key].port == a.port
    ensures var (key, s') := (Index(EndpointOf(a)), Install(s, a, env));
            var runs := a.running && (key in s.listeners || env.opens.Some?);
            s'.apps == s.apps[a.id := a.(running := runs)] &&
            Ports(s'.listeners) == if runs then Ports(s.listeners)[key := a.port] else Ports(s.listeners)
  {
    AddListenerLands(s.listeners, a, env.opens);
    assert !a.running ==> a.(running := false) == a;
  }

  lemma InstallAgrees(s: State, a: App, env: Env)
    requires AgreeOn(DemandsOf(s.apps), Ports(s.listeners), s.apps.Keys - {a.id}) && Grants(a, env)
    ensures Agree(Install(s, a, env))
  {
    StandingPort(s.apps, Ports(s.listeners), s.apps.Keys - {a.id}, a);
    Installed(s, a, env);
    var a' := a.(running := a.running && (Index(EndpointOf(a)) in s.listeners || env.opens.Some?));
    assert EndpointOf(a') == EndpointOf(a);
    Stored(s.apps, Ports(s.listeners), a', Ports(Install(s, a, env).listeners));
  }

  lemma AddAgrees(s: State, a: App, env: Env)
    requires Agree(s) && a.id !in s.apps && Grants(a, env)
    ensures Agree(AddApp(s, a, env))
  {
    if env.authorised {
      assert AgreeOn(DemandsOf(s.apps), Ports(s.listeners), s.apps.Keys - {a.id}) by {
        assert s.apps.Keys - {a.id} == s.apps.Keys;
      }
      InstallAgrees(s, a, env);
    }
  }

  /** A socket is opened for the app and granted another port than asked for, as happens with port 0. */
  predicate Misplaced(ls: ListenerMap, a: App, env: Env)
  {
    a.running && Index(EndpointOf(a)) !in ls && env.opens.Some? && env.opens.value != a.port
  }

  /** The listener is then filed under the granted port while the app keeps the one it asked for. */
  lemma MisplacedDisagrees(s: State, a: App, env: Env)
    requires Misplaced(s.listeners, a, env)
    ensures !Agree(Install(s, a, env))
  {
    var granted := EndpointOf(a).(port := env.opens.value);
    if Index(granted) == Index(EndpointOf(a)) {
      SameKeySamePort(granted, EndpointOf(a));
    }
    var s' := Install(s, a, env);
    assert a.id in s'.apps && DemandsOf(s'.apps)[a.id] == DemandOf(a.(running := true));
    assert !Listening(Ports(s'.listeners), DemandOf(a));
  }

  /** Otherwise the socket may as well be granted as asked for, or not be asked for at all. */
  function AsAsked(ls: ListenerMap, a: App, env: Env): (env': Env)
    requires !Misplaced(ls, a, env)
    ensures Grants(a, env')
  {
    if a.running && Index(EndpointOf(a)) !in ls then env else env.(opens := None)
  }

  lemma InstalledAsAsked(s: State, a: App, env: Env)
    requires !Misplaced(s.listeners, a, env)
    ensures Install(s, a, env) == Install(s, a, AsAsked(s.listeners, a, env))
  {
  }

  lemma AddAgreesIff(s: State, a: App, env: Env)
    requires Agree(s) && a.id !in s.apps
    ensures Agree(AddApp(s, a, env)) <==> !(env.authorised && Misplaced(s.listeners, a, env))
  {
    if env.authorised {
      if Misplaced(s.listeners, a, env) {
        MisplacedDisagrees(s, a, env);
      } else {
        InstalledAsAsked(s, a, env);
        AddAgrees(s, a, AsAsked(s.listeners, a, env));
      }
    }
  }

  /** With a failed socket or a failed write too: only a shared endpoint can hurt. */
  lemma UpdateAgrees(s: State, a: App, env: Env)
    requires Agree(s) && Named(s.apps) && Grants(a, env)
    requires a.id in s.apps && s.apps[a.id].running ==> !Shared(s.apps, a.id)
    ensures Agree(UpdateApp(s, a, env))
  {
    if a.id in s.apps {
      ReleasedPorts(s, a.id);
      ReleasedIff(DemandsOf(s.apps), Ports(s.listeners), a.id);
      SharedIffKey(s.apps, a.id);
      InstallAgrees(s.(listeners := Released(s, a.id)), a, env);
    }
  }

  /** updateApp gets as far as touching the listeners. */
  predicate Applies(s: State, a: App, env: Env)
  {
    a.id != 0 && a.id in s.apps &&
    (env.authorised || (a.peer == s.apps[a.id].peer && a.resource == s.apps[a.id].resource))
  }

  /** With the port granted as asked, a shared endpoint survives only if the listener just closed is opened again. */
  lemma GrantedUpdateAgreesIff(s: State, a: App, env: Env)
    requires Agree(s) && Named(s.apps) && Grants(a, env) && ':' !in a.network
    ensures Agree(UpdateApp(s, a, env)) <==>
            !Applies(s, a, env) || !(s.apps[a.id].running && Shared(s.apps, a.id)) ||
            (a.running && EndpointOf(a) == EndpointOf(s.apps[a.id]) && env.opens.Some?)
  {
    if Applies(s, a, env) {
      if s.apps[a.id].running && Shared(s.apps, a.id) {
        if a.running && EndpointOf(a) == EndpointOf(s.apps[a.id]) && env.opens.Some? {
          SharedReopened(s, a, env);
        } else {
          SharedLost(s, a, env);
        }
      } else {
        UpdateAgrees(s, a, env);
      }
    }
  }

  /** No other running app used the listener that the update closes, or that very listener is opened again. */
  ghost predicate Spares(s: State, a: App, env: Env)
    requires a.id in s.apps
  {
    s.apps[a.id].running && Shared(s.apps, a.id) ==>
      a.running && EndpointOf(a) == EndpointOf(s.apps[a.id]) && env.opens.Some?
  }

  lemma UpdateAgreesIff(s: State, a: App, env: Env)
    requires Agree(s) && Named(s.apps) && ':' !in a.network
    ensures Agree(UpdateApp(s, a, env)) <==>
            !Applies(s, a, env) || (Spares(s, a, env) && !Misplaced(Released(s, a.id), a, env))
  {
    if Applies(s, a, env) {
      var s1 := s.(listeners := Released(s, a.id));
      if Misplaced(s1.listeners, a, env) {
        MisplacedDisagrees(s1, a, env);
      } else {
        InstalledAsAsked(s1, a, env);
        GrantedUpdateAgreesIff(s, a, AsAsked(s1.listeners, a, env));
      }
    }
  }

  /** The app's old listener is closed, then its new one opened if it is to run and can. */
  lemma UpdatedPorts(s: State, a: App, env: Env)
    requires Grants(a, env) && Applies(s, a, env) && s.apps[a.id].running
    requires var key := Index(EndpointOf(a)); key in s.listeners ==> s.listeners[key].port == a.port
    ensures var rest := Ports(s.listeners) - {Index(EndpointOf(s.apps[a.id]))};
            var key := Index(EndpointOf(a));
            Ports(UpdateApp(s, a, env).listeners) ==
            if a.running && (key in rest || env.opens.Some?) then rest[key := a.port] else rest
  {
    var old' := s.apps[a.id];
    PortsOfRemove(s.listeners, Index(EndpointOf(old')));
    AddListenerLands(s.listeners - {Index(EndpointOf(old'))}, a, env.opens);
  }

  lemma SharedReopened(s: State, a: App, env: Env)
    requires Agree(s) && Grants(a, env) && Applies(s, a, env) && s.apps[a.id].running
    requires a.running && EndpointOf(a) == EndpointOf(s.apps[a.id]) && env.opens.Some?
    ensures Agree(UpdateApp(s, a, env))
  {
    StandingPort(s.apps, Ports(s.listeners), s.apps.Keys, a);
    ReopenedState(s, a, env);
    SameRecordAgrees(s, a, UpdateApp(s, a, env));
  }

  lemma ReopenedState(s: State, a: App, env: Env)
    requires Grants(a, env) && Applies(s, a, env) && s.apps[a.id].running
    requires var key := Index(EndpointOf(a)); key in s.listeners ==> s.listeners[key].port == a.port
    requires a.running && EndpointOf(a) == EndpointOf(s.apps[a.id]) && env.opens.Some?
    ensures var (s', key) := (UpdateApp(s, a, env), Index(EndpointOf(a)));
            s'.apps == s.apps[a.id := a] && Ports(s'.listeners) == (Ports(s.listeners) - {key})[key := a.port]
  {
    UpdatedPorts(s, a, env);
    assert a.(running := true) == a;
  }

  lemma SharedLost(s: State, a: App, env: Env)
    requires Agree(s) && Named(s.apps) && Grants(a, env) && ':' !in a.network && Applies(s, a, env)
    requires s.apps[a.id].running && Shared(s.apps, a.id)
    requires !(a.running && EndpointOf(a) == EndpointOf(s.apps[a.id]) && env.opens.Some?)
    ensures !Agree(UpdateApp(s, a, env))
  {
    StandingPort(s.apps, Ports(s.listeners), s.apps.Keys, a);
    StaysClosed(s, a, env);
    LostListener(s, a.id, UpdateApp(s, a, env));
  }

  lemma StaysClosed(s: State, a: App, env: Env)
    requires Grants(a, env) && Applies(s, a, env) && s.apps[a.id].running
    requires var key := Index(EndpointOf(a)); key in s.listeners ==> s.listeners[key].port == a.port
    requires ':' !in a.network && ':' !in s.apps[a.id].network
    requires !(a.running && EndpointOf(a) == EndpointOf(s.apps[a.id]) && env.opens.Some?)
    ensures Index(EndpointOf(s.apps[a.id])) !in UpdateApp(s, a, env).listeners
    ensures forall j :: j in s.apps && j != a.id ==>
              j in UpdateApp(s, a, env).apps && UpdateApp(s, a, env).apps[j] == s.apps[j]
  {
    UpdatedPorts(s, a, env);
    IndexInjective(EndpointOf(a), EndpointOf(s.apps[a.id]));
    assert Index(EndpointOf(s.apps[a.id])) !in Ports(UpdateApp(s, a, env).listeners);
  }

  lemma SameDemands(apps: Apps, a: App)
    requires a.id in apps && DemandOf(a) == DemandOf(apps[a.id])
    ensures DemandsOf(apps[a.id := a]) == DemandsOf(apps)
  {
  }

  /** Closing and reopening the same endpoint changes nothing. */
  lemma SameRecordAgrees(s: State, a: App, s': State)
    requires Agree(s) && a.id in s.apps && s.apps[a.id].running && a.running
    requires EndpointOf(a) == EndpointOf(s.apps[a.id])
    requires s'.apps == s.apps[a.id := a]
    requires var key := Index(EndpointOf(a)); Ports(s'.listeners) == (Ports(s.listeners) - {key})[key := a.port]
    ensures Agree(s')
  {
    SameDemands(s.apps, a);
    var d := DemandsOf(s.apps)[a.id];
    assert Listening(Ports(s.listeners), d);
    Reopened(Ports(s.listeners), d.key, d.port);
    assert s'.apps.Keys == s.apps.Keys;
  }

  lemma Reopened(ls: PortMap, key: string, port: int)
    requires key in ls && ls[key] == port
    ensures (ls - {key})[key := port] == ls
  {
  }

  /** The app that shared the endpoint is left marked running with nothing listening for it. */
  lemma LostListener(s: State, id: nat, s': State)
    requires id in s.apps && Shared(s.apps, id) && Index(EndpointOf(s.apps[id])) !in s'.listeners
    requires forall j :: j in s.apps && j != id ==> j in s'.apps && s'.apps[j] == s.apps[j]
    ensures !Agree(s')
  {
  }

  // ---- Startup ----

  /** apps are records of the map, each listed at most once. */
  ghost predicate Listed(apps: seq<App>, m: Apps)
  {
    (forall i :: 0 <= i < |apps| ==> apps[i].id in m && m[apps[i].id] == apps[i]) &&
    (forall i, j :: 0 <= i < j < |apps| ==> apps[i].id != apps[j].id)
  }

  function Ids(apps: seq<App>): set<nat>
  {
    if apps == [] then {} else {apps[0].id} + Ids(apps[1..])
  }

  lemma {:induction false} IdsAre(apps: seq<App>)
    ensures forall id :: id in Ids(apps) <==> exists i :: 0 <= i < |apps| && apps[i].id == id
  {
    if apps != [] {
      var rest := apps[1..];
      IdsAre(rest);
      assert forall i :: 0 <= i < |rest| ==> rest[i] == apps[i + 1];
      forall id
        ensures id in Ids(apps) <==> exists i :: 0 <= i < |apps| && apps[i].id == id
      {
        if i :| 0 <= i < |apps| && apps[i].id == id {
          assert i == 0 || rest[i - 1].id == id;
        }
        if id in Ids(rest) {
          var i :| 0 <= i < |rest| && rest[i].id == id;
          assert apps[i + 1].id == id;
        }
      }
    }
  }

  lemma StartupOneAgrees(s: State, a: App, env: Env, done: set<nat>)
    requires AgreeOn(DemandsOf(s.apps), Ports(s.listeners), done)
    requires a.id in s.apps && s.apps[a.id] == a && a.id !in done && (a.running ==> Grants(a, env))
    ensures var s' := StartupOne(s, a, env); AgreeOn(DemandsOf(s'.apps), Ports(s'.listeners), done + {a.id})
  {
    if a.running {
      StandingPort(s.apps, Ports(s.listeners), done, a);
      StartedOne(s, a, env);
      RunnerAgrees(s, a, StartupOne(s, a, env), done);
    } else {
      TakenOn(DemandsOf(s.apps), Ports(s.listeners), done, a.id);
    }
  }

  lemma StartedOne(s: State, a: App, env: Env)
    requires a.id in s.apps && s.apps[a.id] == a && a.running && Grants(a, env)
    requires var key := Index(EndpointOf(a)); key in s.listeners ==> s.listeners[key].port == a.port
    ensures var (s', key) := (StartupOne(s, a, env), Index(EndpointOf(a)));
            var runs := key in s.listeners || env.opens.Some?;
            s'.apps == s.apps[a.id := a.(running := runs)] &&
            Ports(s'.listeners) == if runs then Ports(s.listeners)[key := a.port] else Ports(s.listeners)
  {
    AddListenerLands(s.listeners, a, env.opens);
    assert a.(running := true) == a && s.apps[a.id := a] == s.apps;
  }

  lemma RunnerAgrees(s: State, a: App, s': State, done: set<nat>)
    requires AgreeOn(DemandsOf(s.apps), Ports(s.listeners), done) && a.running && a.id !in done
    requires var key := Index(EndpointOf(a)); key in s.listeners ==> s.listeners[key].port == a.port
    requires a.id in s'.apps && s'.apps.Keys == s.apps.Keys
    requires forall id :: id in s.apps && id != a.id ==> s'.apps[id] == s.apps[id]
    requires s'.apps[a.id] == a || s'.apps[a.id] == a.(running := false)
    requires Ports(s'.listeners) ==
             if s'.apps[a.id].running then Ports(s.listeners)[Index(EndpointOf(a)) := a.port] else Ports(s.listeners)
    ensures AgreeOn(DemandsOf(s'.apps), Ports(s'.listeners), done + {a.id})
  {
    var ds' := DemandsOf(s'.apps);
    assert ds'[a.id] == Demand(s'.apps[a.id].running, Index(EndpointOf(a)), a.port);
    OutsideIsFree(DemandsOf(s.apps), ds', Ports(s.listeners), done, a.id);
    TakenOn(ds', Ports(s.listeners), done, a.id);
  }

  lemma ListedTail(s: State, apps: seq<App>, env: Env)
    requires apps != [] && Listed(apps, s.apps)
    ensures Listed(apps[1..], StartupOne(s, apps[0], env).apps)
  {
  }

  lemma {:induction false} StartupAgreesFrom(s: State, apps: seq<App>, envs: nat -> Env, done: set<nat>)
    requires AgreeOn(DemandsOf(s.apps), Ports(s.listeners), done) && Listed(apps, s.apps)
    requires forall i :: 0 <= i < |apps| ==>
               apps[i].id !in done && (apps[i].running ==> Grants(apps[i], envs(apps[i].id)))
    ensures var s' := Startup(s, apps, envs); AgreeOn(DemandsOf(s'.apps), Ports(s'.listeners), done + Ids(apps))
    decreases |apps|
  {
    if apps == [] {
      assert done + {} == done;
    } else {
      var a, env, rest := apps[0], envs(apps[0].id), apps[1..];
      StartupOneAgrees(s, a, env, done);
      ListedTail(s, apps, env);
      StartupAgreesFrom(StartupOne(s, a, env), rest, envs, done + {a.id});
      assert done + {a.id} + Ids(rest) == done + Ids(apps);
    }
  }

  lemma {:induction false} StartupKeepsIds(s: State, apps: seq<App>, envs: nat -> Env)
    requires Listed(apps, s.apps)
    ensures Startup(s, apps, envs).apps.Keys == s.apps.Keys
    decreases |apps|
  {
    if apps != [] {
      ListedTail(s, apps, envs(apps[0].id));
      StartupKeepsIds(StartupOne(s, apps[0], envs(apps[0].id)), apps[1..], envs);
    }
  }

  /** Startup agrees for every order in which the map hands out the apps, shared endpoints included. */
  lemma StartupAgrees(s: State, apps: seq<App>, envs: nat -> Env)
    requires s.listeners == map[] && Enumerates(apps, s.apps)
    requires forall id :: id in s.apps && s.apps[id].running ==> Grants(s.apps[id], envs(id))
    ensures Agree(Startup(s, apps, envs))
  {
    StartupAgreesFrom(s, apps, envs, {});
    StartupKeepsIds(s, apps, envs);
    IdsAre(apps);
    var s' := Startup(s, apps, envs);
    forall id | id in s'.apps
      ensures id in {} + Ids(apps)
    {
      assert s.apps[id] in apps && s.apps[id].id == id;
    }
    AllDone(DemandsOf(s'.apps), Ports(s'.listeners), {} + Ids(apps));
  }

  /** Each listener is filed under its own port, and none under port 0. */
  ghost predicate Filed(ls: ListenerMap)
  {
    forall e :: Index(e) in ls ==> ls[Index(e)].port == e.port && e.port != 0
  }

  lemma AddListenerFiles(ls: ListenerMap, a: App, env: Env)
    requires Filed(ls) && Plausible(a, env)
    ensures Filed(AddListener(ls, EndpointOf(a), env.opens).0)
  {
    var key := Index(EndpointOf(a));
    if key in ls {
      assert EndpointOf(a).(port := ls[key].port) == EndpointOf(a);
    } else if env.opens.Some? {
      var granted := EndpointOf(a).(port := env.opens.value);
      forall e | Index(e) == Index(granted)
        ensures e.port == granted.port
      {
        SameKeySamePort(e, granted);
      }
    }
  }

  lemma {:induction false} StartupFiles(s: State, apps: seq<App>, envs: nat -> Env)
    requires Filed(s.listeners)
    requires forall i :: 0 <= i < |apps| && apps[i].running ==> Plausible(apps[i], envs(apps[i].id))
    ensures Filed(Startup(s, apps, envs).listeners)
    decreases |apps|
  {
    if apps != [] {
      var a, env := apps[0], envs(apps[0].id);
      if a.running {
        AddListenerFiles(s.listeners, a, env);
      }
      StartupFiles(StartupOne(s, a, env), apps[1..], envs);
    }
  }

  /** An app whose socket opens keeps its record. */
  lemma {:induction false} StartupKeepsRecord(s: State, apps: seq<App>, envs: nat -> Env, id: nat)
    requires id in s.apps && envs(id).opens.Some?
    ensures var s' := Startup(s, apps, envs); id in s'.apps && s'.apps[id] == s.apps[id]
    decreases |apps|
  {
    if apps != [] {
      StartupKeepsRecord(StartupOne(s, apps[0], envs(apps[0].id)), apps[1..], envs, id);
    }
  }

  /** A stored app is to run on port 0 and gets a socket. */
  ghost predicate Strays(apps: Apps, envs: nat -> Env, id: nat)
  {
    id in apps && apps[id].running && apps[id].port == 0 && envs(id).opens.Some?
  }

  /** With the ports a system grants, startup agrees exactly when no app on port 0 gets its socket. */
  lemma StartupAgreesIff(s: State, apps: seq<App>, envs: nat -> Env)
    requires s.listeners == map[] && Enumerates(apps, s.apps)
    requires forall id :: id in s.apps && s.apps[id].running ==> Plausible(s.apps[id], envs(id))
    ensures Agree(Startup(s, apps, envs)) <==> forall id :: !Strays(s.apps, envs, id)
  {
    if id :| Strays(s.apps, envs, id) {
      StartupFiles(s, apps, envs);
      StartupKeepsRecord(s, apps, envs, id);
      var s' := Startup(s, apps, envs);
      assert !Listening(Ports(s'.listeners), DemandsOf(s'.apps)[id]);
    } else {
      forall id | id in s.apps && s.apps[id].running
        ensures Grants(s.apps[id], envs(id))
      {
        assert !Strays(s.apps, envs, id);
      }
      StartupAgrees(s, apps, envs);
    }
  }

  /** When every socket opens, startup changes no app: a restart brings all listeners back. */
  lemma {:induction false} StartupKeepsApps(s: State, apps: seq<App>, envs: nat -> Env)
    requires forall i :: 0 <= i < |apps| && apps[i].running ==> envs(apps[i].id).opens.Some?
    ensures Startup(s, apps, envs).apps == s.apps
    decreases |apps|
  {
    if apps != [] {
      StartupKeepsApps(StartupOne(s, apps[0], envs(apps[0].id)), apps[1..], envs);
    }
  }

  /** An agreed index depends on the apps alone. */
  lemma AgreedPortsUnique(s: State, u: State)
    requires Agree(s) && Agree(u) && s.apps == u.apps
    ensures Ports(s.listeners) == Ports(u.listeners)
  {
    AgreedUnique(DemandsOf(s.apps), Ports(s.listeners), Ports(u.listeners));
  }

  /** A restart with all sockets available brings back the same keys and ports, in any order of the apps. */
  lemma RestartRebuildsListeners(s: State, apps: seq<App>, envs: nat -> Env)
    requires Agree(s) && s.saved == s.apps && Enumerates(apps, s.saved)
    requires forall id :: id in s.saved && s.saved[id].running ==> envs(id).opens == Some(s.saved[id].port)
    ensures Ports(Startup(Reload(s), apps, envs).listeners) == Ports(s.listeners)
    ensures Startup(Reload(s), apps, envs).apps == s.apps
  {
    StartupAgrees(Reload(s), apps, envs);
    StartupKeepsApps(Reload(s), apps, envs);
    AgreedPortsUnique(s, Startup(Reload(s), apps, envs));
  }

  /** An app asked to run is marked running exactly when a listener for it stands or its socket opens; the listener is
      found under the app's key unless another port was granted. */
  lemma RunningIffListening(s: State, a: App, env: Env)
    requires a.id !in s.apps && env.authorised
    ensures var s' := AddApp(s, a, env);
            s'.apps - {a.id} == s.apps && a.id in s'.apps &&
            s'.apps[a.id] == a.(running := a.running && (Index(EndpointOf(a)) in s.listeners || env.opens.Some?)) &&
            (a.running ==> (s'.apps[a.id].running && !Misplaced(s.listeners, a, env) <==>
                            Index(EndpointOf(a)) in s'.listeners))
  {
    if env.opens.Some? {
      var granted := EndpointOf(a).(port := env.opens.value);
      assert env.opens.value == a.port ==> granted == EndpointOf(a);
      if Index(granted) == Index(EndpointOf(a)) {
        SameKeySamePort(granted, EndpointOf(a));
      }
    }
  }

  // ---- Runs ----

  ghost predicate AllNamed(s: State)
  {
    Named(s.apps) && Named(s.saved)
  }

  lemma {:induction false} StartupKeepsNames(s: State, apps: seq<App>, envs: nat -> Env)
    requires AllNamed(s) && Listed(apps, s.apps)
    ensures AllNamed(Startup(s, apps, envs))
    decreases |apps|
  {
    if apps != [] {
      ListedTail(s, apps, envs(apps[0].id));
      StartupKeepsNames(StartupOne(s, apps[0], envs(apps[0].id)), apps[1..], envs);
    }
  }

  lemma StepKeepsNames(s: State, op: Op)
    requires AllNamed(s) && Fair(s, op)
    ensures AllNamed(Step(s, op))
  {
    if op.RestartOp? {
      StartupKeepsNames(Reload(s), op.apps, op.envs);
    }
  }

  /** When a step keeps the agreement, told before it is taken. */
  ghost predicate Keeps(s: State, op: Op)
  {
    match op
    case AddOp(a, env) => !(env.authorised && Misplaced(s.listeners, a, env))
    case UpdateOp(a, env) =>
      !Applies(s, a, env) || (Spares(s, a, env) && !Misplaced(Released(s, a.id), a, env))
    case DeleteOp(id, _) => id in s.apps && s.apps[id].running ==> !Shared(s.apps, id)
    case RestartOp(_, envs) => forall id :: !Strays(s.saved, envs, id)
  }

  /** Running apps sit on pairwise distinct endpoints. */
  ghost predicate Distinct(s: State)
  {
    forall id :: id in s.apps && s.apps[id].running ==> !Shared(s.apps, id)
  }

  /** Sockets are granted on the port asked for or not at all. */
  ghost predicate GrantsAll(s: State, op: Op)
  {
    match op
    case AddOp(a, env) => Grants(a, env)
    case UpdateOp(a, env) => Grants(a, env)
    case DeleteOp(_, _) => true
    case RestartOp(_, envs) => forall id :: id in s.saved && s.saved[id].running ==> Grants(s.saved[id], envs(id))
  }

  lemma DistinctKeeps(s: State, op: Op)
    requires Distinct(s) && Fair(s, op) && GrantsAll(s, op)
    ensures Keeps(s, op)
  {
  }

  ghost function Exec(s: State, ops: seq<Op>): State
    decreases |ops|
  {
    if ops == [] then s else Exec(Step(s, ops[0]), ops[1..])
  }

  ghost predicate FairRun(s: State, ops: seq<Op>)
    decreases |ops|
  {
    ops == [] || (Fair(s, ops[0]) && FairRun(Step(s, ops[0]), ops[1..]))
  }

  ghost predicate KeptRun(s: State, ops: seq<Op>)
    decreases |ops|
  {
    ops == [] || (Keeps(s, ops[0]) && KeptRun(Step(s, ops[0]), ops[1..]))
  }

  /** Index and apps agree after each prefix of the run. */
  ghost predicate StaysAgreed(s: State, ops: seq<Op>)
    decreases |ops|
  {
    Agree(s) && (ops == [] || StaysAgreed(Step(s, ops[0]), ops[1..]))
  }

  lemma StepAgreesIff(s: State, op: Op)
    requires Agree(s) && AllNamed(s) && Fair(s, op)
    ensures Agree(Step(s, op)) <==> Keeps(s, op)
  {
    match op
    case AddOp(a, env) => AddAgreesIff(s, a, env);
    case UpdateOp(a, env) => UpdateAgreesIff(s, a, env);
    case DeleteOp(id, saves) => if id in s.apps { DeleteAgreesIff(s, id, saves); }
    case RestartOp(apps, envs) => StartupAgreesIff(Reload(s), apps, envs);
  }

  /** Over any run, failing sockets, writes and authorisations included. */
  lemma {:induction false} RunsAgreeIff(s: State, ops: seq<Op>)
    requires Agree(s) && AllNamed(s) && FairRun(s, ops)
    ensures StaysAgreed(s, ops) <==> KeptRun(s, ops)
    decreases |ops|
  {
    if ops != [] {
      StepAgreesIff(s, ops[0]);
      if Keeps(s, ops[0]) {
        StepKeepsNames(s, ops[0]);
        RunsAgreeIff(Step(s, ops[0]), ops[1..]);
      }
    }
  }

  lemma {:induction false} LastAgrees(s: State, ops: seq<Op>)
    requires StaysAgreed(s, ops)
    ensures Agree(Exec(s, ops))
    decreases |ops|
  {
    if ops != [] {
      LastAgrees(Step(s, ops[0]), ops[1..]);
    }
  }

  /** A fair run from nothing whose every step keeps the agreement. */
  ghost predicate Agreeable(ops: seq<Op>)
  {
    FairRun(INITIAL, ops) && KeptRun(INITIAL, ops)
  }

  lemma AgreeableAgrees(ops: seq<Op>)
    requires Agreeable(ops)
    ensures Agree(Exec(INITIAL, ops))
  {
    RunsAgreeIff(INITIAL, ops);
    LastAgrees(INITIAL, ops);
  }

  // ---- Restart ----

  ghost predicate Writes(op: Op)
  {
    match op
    case AddOp(_, env) => env.saves
    case UpdateOp(_, env) => env.saves
    case DeleteOp(_, saves) => saves
    case RestartOp(_, envs) => forall id :: envs(id).saves
  }

  lemma {:induction false} StartupSaves(s: State, apps: seq<App>, envs: nat -> Env)
    requires s.saved == s.apps && forall id :: envs(id).saves
    ensures Startup(s, apps, envs).saved == Startup(s, apps, envs).apps
    decreases |apps|
  {
    if apps != [] {
      StartupSaves(StartupOne(s, apps[0], envs(apps[0].id)), apps[1..], envs);
    }
  }

  lemma SavedStaysCurrent(s: State, op: Op)
    requires s.saved == s.apps && Writes(op)
    ensures Step(s, op).saved == Step(s, op).apps
  {
    if op.RestartOp? {
      StartupSaves(Reload(s), op.apps, op.envs);
    }
  }

  lemma {:induction false} SavedRunsStayCurrent(s: State, ops: seq<Op>)
    requires s.saved == s.apps && forall op :: op in ops ==> Writes(op)
    ensures Exec(s, ops).saved == Exec(s, ops).apps
    decreases |ops|
  {
    if ops != [] {
      SavedStaysCurrent(s, ops[0]);
      SavedRunsStayCurrent(Step(s, ops[0]), ops[1..]);
    }
  }

  /** After any such run with its writes succeeding, a restart that gets its sockets has the same listeners and apps. */
  lemma RestartAfterRun(ops: seq<Op>, apps: seq<App>, envs: nat -> Env)
    requires Agreeable(ops) && forall op :: op in ops ==> Writes(op)
    requires var s := Exec(INITIAL, ops);
             Enumerates(apps, s.apps) &&
             forall id :: id in s.apps && s.apps[id].running ==> envs(id).opens == Some(s.apps[id].port)
    ensures var (s, s') := (Exec(INITIAL, ops), Startup(Reload(Exec(INITIAL, ops)), apps, envs));
            Ports(s'.listeners) == Ports(s.listeners) && s'.apps == s.apps
  {
    AgreeableAgrees(ops);
    SavedRunsStayCurrent(INITIAL, ops);
    RestartRebuildsListeners(Exec(INITIAL, ops), apps, envs);
  }

  // ---- Socket kinds ----

  ghost predicate TcpAt(network: string, i: int)
  {
    0 <= i <= |network| - 3 && network[i] == 't' && network[i + 1] == 'c' && network[i + 2] == 'p'
  }

  /** The text holds "tcp" somewhere. */
  ghost predicate HoldsTcp(network: string)
  {
    exists i :: TcpAt(network, i)
  }

  lemma {:induction false} UsesTcpIff(network: string)
    ensures UsesTcp(network) <==> HoldsTcp(network)
  {
    if |network| >= 3 {
      UsesTcpIff(network[1..]);
      assert network[..3] == "tcp" <==> TcpAt(network, 0);
      forall i
        ensures TcpAt(network[1..], i) <==> i >= 0 && TcpAt(network, i + 1)
      {
      }
      if i :| TcpAt(network[1..], i) {
        assert TcpAt(network, i + 1);
      }
      if i :| TcpAt(network, i) && i > 0 {
        assert TcpAt(network[1..], i - 1);
      }
    }
  }

  /** Every listener is a TCP socket or a UDP one as the network name in its key says. */
  ghost predicate RightKinds(ls: ListenerMap)
  {
    forall e: Endpoint :: ':' !in e.network && Index(e) in ls ==> (ls[Index(e)].tcp <==> HoldsTcp(e.network))
  }

  lemma AddListenerKinds(ls: ListenerMap, e: Endpoint, opens: Option<int>)
    requires RightKinds(ls) && ':' !in e.network
    ensures RightKinds(AddListener(ls, e, opens).0)
  {
    var ls' := AddListener(ls, e, opens).0;
    UsesTcpIff(e.network);
    forall f: Endpoint | ':' !in f.network && Index(f) in ls'
      ensures ls'[Index(f)].tcp <==> HoldsTcp(f.network)
    {
      if Index(e) in ls {
        IndexInjective(f, e.(port := ls[Index(e)].port));
      } else if opens.Some? {
        IndexInjective(f, e.(port := opens.value));
      }
    }
  }

  lemma FewerKinds(ls: ListenerMap, key: string)
    requires RightKinds(ls)
    ensures RightKinds(ls - {key})
  {
  }

  lemma InstallKinds(s: State, a: App, env: Env)
    requires RightKinds(s.listeners) && ':' !in a.network
    ensures RightKinds(Install(s, a, env).listeners)
  {
    AddListenerKinds(s.listeners, EndpointOf(a), env.opens);
  }

  lemma {:induction false} StartupKinds(s: State, apps: seq<App>, envs: nat -> Env)
    requires RightKinds(s.listeners) && Listed(apps, s.apps) && Named(s.apps)
    ensures RightKinds(Startup(s, apps, envs).listeners)
    decreases |apps|
  {
    if apps != [] {
      var env := envs(apps[0].id);
      AddListenerKinds(s.listeners, EndpointOf(apps[0]), env.opens);
      ListedTail(s, apps, env);
      StartupKinds(StartupOne(s, apps[0], env), apps[1..], envs);
    }
  }

  lemma StepKinds(s: State, op: Op)
    requires RightKinds(s.listeners) && AllNamed(s) && Fair(s, op)
    ensures RightKinds(Step(s, op).listeners)
  {
    match op
    case AddOp(a, env) => InstallKinds(s, a, env);
    case UpdateOp(a, env) =>
      if a.id in s.apps {
        FewerKinds(s.listeners, Index(EndpointOf(s.apps[a.id])));
        InstallKinds(s.(listeners := Released(s, a.id)), a, env);
      }
    case DeleteOp(id, _) =>
      if id in s.apps {
        FewerKinds(s.listeners, Index(EndpointOf(s.apps[id])));
      }
    case RestartOp(apps, envs) => StartupKinds(Reload(s), apps, envs);
  }

  lemma {:induction false} RunsKeepKinds(s: State, ops: seq<Op>)
    requires RightKinds(s.listeners) && AllNamed(s) && FairRun(s, ops)
    ensures RightKinds(Exec(s, ops).listeners) && AllNamed(Exec(s, ops))
    decreases |ops|
  {
    if ops != [] {
      StepKinds(s, ops[0]);
      StepKeepsNames(s, ops[0]);
      RunsKeepKinds(Step(s, ops[0]), ops[1..]);
    }
  }

  // ---- What each operation does to the records ----

  /** An app that is to run does so if a listener stands under its key or its socket opens. */
  function Outcome(ls: ListenerMap, a: App, env: Env): App
  {
    a.(running := a.running && (Index(EndpointOf(a)) in ls || env.opens.Some?))
  }

  /** Only the app's own record changes, and the database follows if the write succeeds. */
  ghost predicate Replaces(before: State, after: State, a: App, saves: bool)
  {
    after.apps.Keys == before.apps.Keys + {a.id} && after.apps[a.id] == a &&
    (forall j :: j in before.apps && j != a.id ==> after.apps[j] == before.apps[j]) &&
    after.saved == if saves then after.apps else before.saved
  }

  lemma AddStores(s: State, a: App, env: Env)
    ensures if env.authorised then Replaces(s, AddApp(s, a, env), Outcome(s.listeners, a, env), env.saves)
            else AddApp(s, a, env) == s
  {
  }

  /** A changed peer or resource needs the peer's permission; without it nothing happens. */
  lemma UpdateStores(s: State, a: App, env: Env)
    ensures if Applies(s, a, env) then
              Replaces(s, UpdateApp(s, a, env), Outcome(Released(s, a.id), a, env), env.saves)
            else UpdateApp(s, a, env) == s
  {
  }

  /** A deleted app is gone from the table, and from the database if the write succeeds; its listener is closed if it
      ran, and every other one stays. */
  lemma DeleteRemoves(s: State, id: nat, saves: bool)
    ensures var s' := DeleteApp(s, id, saves);
            s'.apps.Keys == s.apps.Keys - {id} && (forall j :: j in s'.apps ==> s'.apps[j] == s.apps[j]) &&
            s'.saved == if saves then s'.apps else s.saved
    ensures forall key :: key in s.listeners ==>
              var closed := id in s.apps && s.apps[id].running && key == Index(EndpointOf(s.apps[id]));
              (key in DeleteApp(s, id, saves).listeners <==> !closed) &&
              (!closed ==> DeleteApp(s, id, saves).listeners[key] == s.listeners[key])
    ensures DeleteApp(s, id, saves).listeners.Keys <= s.listeners.Keys
  {
  }

  /** What was not written is as if it had not happened after a restart. */
  lemma RestartForgetsUnsaved(s: State, a: App, env: Env, id: nat)
    ensures !env.saves ==> Reload(AddApp(s, a, env)) == Reload(UpdateApp(s, a, env)) == Reload(s)
    ensures Reload(DeleteApp(s, id, false)) == Reload(s)
    ensures Reload(s).apps == s.saved && Reload(s).listeners == map[]
  {
  }

  /** Startup changes no record but to mark apps stopped whose socket failed. */
  lemma {:induction false} StartupStops(s: State, apps: seq<App>, envs: nat -> Env, id: nat)
    requires Listed(apps, s.apps) && id in s.apps
    ensures var s' := Startup(s, apps, envs);
            id in s'.apps && s'.apps.Keys == s.apps.Keys &&
            (s'.apps[id] == s.apps[id] ||
             (s.apps[id].running && envs(id).opens == None && s'.apps[id] == s.apps[id].(running := false)))
    decreases |apps|
  {
    if apps != [] {
      var s1 := StartupOne(s, apps[0], envs(apps[0].id));
      ListedTail(s, apps, envs(apps[0].id));
      StartupStops(s1, apps[1..], envs, id);
    }
  }

  lemma {:induction false} UnsavedStartup(s: State, apps: seq<App>, envs: nat -> Env)
    requires forall i :: 0 <= i < |apps| ==> !envs(apps[i].id).saves
    ensures Startup(s, apps, envs).saved == s.saved
    decreases |apps|
  {
    if apps != [] {
      UnsavedStartup(StartupOne(s, apps[0], envs(apps[0].id)), apps[1..], envs);
    }
  }

  // ---- Accepted connections ----

  /** onConnOpen's first three letters of the local address's network: all it passes on besides the port. */
  function Presented(l: Socket): string {
    if l.tcp then "tcp" else "udp"
  }

  /** FindAppWithPort can return f, for some order of the map. */
  ghost predicate MayFind(apps: Apps, network: string, port: int, f: App)
  {
    f.id in apps && apps[f.id] == f && f.network == network && f.port == port
  }

  /** FindAppWithPort returns f, for every order of the map. */
  ghost predicate Finds(apps: Apps, network: string, port: int, f: App)
  {
    MayFind(apps, network, port, f) && forall g :: MayFind(apps, network, port, g) ==> g == f
  }

  /** No two apps, running or not, share network and port: what FindAppWithPort goes by. */
  ghost predicate UniquePorts(apps: Apps)
  {
    forall i, j :: i in apps && j in apps && apps[i].network == apps[j].network && apps[i].port == apps[j].port ==>
      i == j
  }

  /** No other app, running or not, has this app's network and port. */
  ghost predicate Sole(apps: Apps, id: nat)
    requires id in apps
  {
    forall j :: j in apps && apps[j].network == apps[id].network && apps[j].port == apps[id].port ==> j == id
  }

  /** A connection to a running app's listener is handed to that app, in every map order, exactly when the app's network
      is "tcp" or "udp" itself and no other app has the same network and port, on whatever address. */
  lemma LookupFindsOwnerIff(s: State, id: nat)
    requires Agree(s) && RightKinds(s.listeners)
    requires id in s.apps && s.apps[id].running && ':' !in s.apps[id].network
    ensures Index(EndpointOf(s.apps[id])) in s.listeners
    ensures var (owner, l) := (s.apps[id], s.listeners[Index(EndpointOf(s.apps[id]))]);
            Finds(s.apps, Presented(l), l.port, owner) <==>
            (owner.network == "tcp" || owner.network == "udp") && Sole(s.apps, id)
  {
    var owner := s.apps[id];
    var d := DemandsOf(s.apps)[id];
    assert Listening(Ports(s.listeners), d);
    var l := s.listeners[Index(EndpointOf(owner))];
    assert l.port == owner.port && l.tcp == UsesTcp(owner.network) by { UsesTcpIff(owner.network); }
    KindNames();
    if Finds(s.apps, Presented(l), l.port, owner) {
      assert forall j :: j in s.apps && s.apps[j].network == owner.network && s.apps[j].port == owner.port ==>
          MayFind(s.apps, Presented(l), l.port, s.apps[j]);
    }
  }

  /** The same after any run that keeps the agreement. */
  lemma AcceptedAfterRun(ops: seq<Op>, id: nat)
    requires Agreeable(ops)
    requires var s := Exec(INITIAL, ops); id in s.apps && s.apps[id].running
    ensures var s := Exec(INITIAL, ops);
            var key := Index(EndpointOf(s.apps[id]));
            key in s.listeners &&
            (Finds(s.apps, Presented(s.listeners[key]), s.listeners[key].port, s.apps[id]) <==>
             (s.apps[id].network == "tcp" || s.apps[id].network == "udp") && Sole(s.apps, id))
  {
    AgreeableAgrees(ops);
    RunsKeepKinds(INITIAL, ops);
    LookupFindsOwnerIff(Exec(INITIAL, ops), id);
  }

  lemma KindNames()
    ensures UsesTcp("tcp") && UsesTcp("tcp4") && !UsesTcp("udp")
  {
    assert "tcp"[..3] == "tcp" && "tcp4"[..3] == "tcp" && "udp"[..3] == "udp";
    assert "udp"[1..] == "dp";
  }

  const TCP4_APP := App(1, "peer1", 1, "tcp4", "0.0.0.0", 8080, true)
  const TCP_APP := App(2, "peer2", 2, "tcp", "0.0.0.0", 8080, false)

  const MIXED := State(
    map[1 := TCP4_APP, 2 := TCP_APP], map[1 := TCP4_APP, 2 := TCP_APP],
    map[Index(EndpointOf(TCP4_APP)) := Socket(true, 8080)])

  /** Two successful additions lead to the mixed table. */
  lemma MixedReached()
    ensures var env := Env(true, Some(8080), true);
            AddApp(AddApp(INITIAL, TCP4_APP, env), TCP_APP, env) == MIXED
  {
    KindNames();
    assert EndpointOf(TCP4_APP).(port := 8080) == EndpointOf(TCP4_APP);
    assert TCP4_APP.(running := true) == TCP4_APP;
    assert map[1 := TCP4_APP][2 := TCP_APP] == map[1 := TCP4_APP, 2 := TCP_APP];
  }

  lemma MixedAgrees()
    ensures Agree(MIXED) && AllNamed(MIXED) && UniquePorts(MIXED.apps)
  {
    var env := Env(true, Some(8080), true);
    MixedReached();
    AddAgrees(INITIAL, TCP4_APP, env);
    AddAgrees(AddApp(INITIAL, TCP4_APP, env), TCP_APP, env);
    MixedApart();
  }

  lemma MixedApart()
    ensures AllNamed(MIXED) && UniquePorts(MIXED.apps)
  {
    assert ':' !in "tcp4" && ':' !in "tcp";
    assert "tcp" != "tcp4";
  }

  /** A connection accepted for the running "tcp4" app is handed to the stopped "tcp" app on the same port. */
  lemma MixedLookup()
    ensures MIXED.listeners[Index(EndpointOf(TCP4_APP))] == Socket(true, 8080)
    ensures Finds(MIXED.apps, Presented(Socket(true, 8080)), 8080, TCP_APP)
  {
    assert "tcp" != "tcp4";
    assert MayFind(MIXED.apps, "tcp", 8080, TCP_APP);
    assert forall g: App :: g.id in MIXED.apps && MIXED.apps[g.id] == g ==> g == TCP4_APP || g == TCP_APP;
  }
}
