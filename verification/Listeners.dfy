// Port-map listeners and the app table as one state (portmap/portmap.go, gateway/portmap_app.go,
// app handlers of gateway/gateway.go).

module Listeners {
  import opened Words
  import opened ListenerKeys

  /** PortmapApp, without the fields that only travel to the peer. */
  datatype App = App(
    id: nat, peer: string, resource: nat, network: string, ip: string, port: int, running: bool)

  function EndpointOf(a: App): Endpoint {
    Endpoint(a.network, a.ip, a.port)
  }

  type Apps = m: map<nat, App> | forall id :: id in m ==> m[id].id == id

  datatype State = State(apps: Apps, saved: Apps, listeners: ListenerMap)

  /** strings.Contains(network, "tcp"): what decides between a TCP and a UDP socket. */
  predicate UsesTcp(network: string) {
    |network| >= 3 && (network[..3] == "tcp" || UsesTcp(network[1..]))
  }

  /** Portmap.AddListener; `opens` is the port the operating system grants, None for a failure. */
  function AddListener(ls: ListenerMap, e: Endpoint, opens: Option<int>): (ListenerMap, bool) {
    if Index(e) in ls then (ls[Index(e.(port := ls[Index(e)].port)) := ls[Index(e)]], true)
    else if opens == None then (ls, false)
    else (ls[Index(e.(port := opens.value)) := Socket(UsesTcp(e.network), opens.value)], true)
  }

  function DeleteListener(ls: ListenerMap, e: Endpoint): ListenerMap {
    ls - {Index(e)}
  }

  /** The environment's answers in one step: resource authorisation, socket, database write. */
  datatype Env = Env(authorised: bool, opens: Option<int>, saves: bool)

  function UpdatePortmapApp(s: State, a: App, saves: bool): State {
    var apps := s.apps[a.id := a];
    s.(apps := apps, saved := if saves then apps else s.saved)
  }

  /** The common end of addApp and updateApp: open a listener if asked to, then store the outcome. */
  function Install(s: State, a: App, env: Env): State {
    if !a.running then UpdatePortmapApp(s, a, env.saves)
    else
      var (ls, ok) := AddListener(s.listeners, EndpointOf(a), env.opens);
      UpdatePortmapApp(s.(listeners := ls), a.(running := ok), env.saves)
  }

  /** addApp, with the id it draws already in a. */
  function AddApp(s: State, a: App, env: Env): State {
    if !env.authorised then s else Install(s, a, env)
  }

  function UpdateApp(s: State, a: App, env: Env): State {
    if a.id == 0 || a.id !in s.apps then s
    else
      var old' := s.apps[a.id];
      if (a.peer != old'.peer || a.resource != old'.resource) && !env.authorised then s
      else Install(s.(listeners := Released(s, a.id)), a, env)
  }

  /** The listeners after the app's own one, if it is running, is closed. */
  function Released(s: State, id: nat): ListenerMap
    requires id in s.apps
  {
    if s.apps[id].running then DeleteListener(s.listeners, EndpointOf(s.apps[id])) else s.listeners
  }

  function DeleteApp(s: State, id: nat, saves: bool): State {
    if id !in s.apps then s.(saved := if saves then s.apps else s.saved)
    else
      var apps := s.apps - {id};
      State(apps, if saves then apps else s.saved, Released(s, id))
  }

  /** The startup loop over the loaded apps, in the order the map hands them out. */
  function Startup(s: State, apps: seq<App>, envs: nat -> Env): State
    decreases |apps|
  {
    if apps == [] then s else Startup(StartupOne(s, apps[0], envs(apps[0].id)), apps[1..], envs)
  }

  function StartupOne(s: State, a: App, env: Env): State {
    if !a.running then s
    else
      var (ls, ok) := AddListener(s.listeners, EndpointOf(a), env.opens);
      var s1 := s.(listeners := ls);
      if ok then s1 else UpdatePortmapApp(s1, a.(running := false), env.saves)
  }

  /** A new process: apps reloaded, no listener open. */
  function Reload(s: State): State {
    State(s.saved, s.saved, map[])
  }

  ghost predicate Enumerates(apps: seq<App>, m: Apps)
  {
    (forall i :: 0 <= i < |apps| ==> apps[i].id in m && m[apps[i].id] == apps[i]) &&
    (forall i, j :: 0 <= i < j < |apps| ==> apps[i].id != apps[j].id) &&
    (forall id :: id in m ==> m[id] in apps)
  }

  datatype Op =
    | AddOp(app: App, env: Env)
    | UpdateOp(app: App, env: Env)
    | DeleteOp(id: nat, saves: bool)
    | RestartOp(apps: seq<App>, envs: nat -> Env)

  ghost function Step(s: State, op: Op): State
  {
    match op
    case AddOp(a, env) => AddApp(s, a, env)
    case UpdateOp(a, env) => UpdateApp(s, a, env)
    case DeleteOp(id, saves) => DeleteApp(s, id, saves)
    case RestartOp(apps, envs) => Startup(Reload(s), apps, envs)
  }

  /** A socket is granted on the port asked for or not at all. */
  predicate Grants(a: App, env: Env) {
    env.opens.Some? ==> env.opens.value == a.port
  }

  /** What the operating system does: port 0 asks for any port, and gets another one. */
  predicate Plausible(a: App, env: Env) {
    env.opens.Some? ==> if a.port == 0 then env.opens.value != 0 else env.opens.value == a.port
  }

  /** Fresh ids, network names without a colon, real sockets at startup. */
  ghost predicate Fair(s: State, op: Op)
  {
    match op
    case AddOp(a, _) => a.id !in s.apps && ':' !in a.network
    case UpdateOp(a, _) => ':' !in a.network
    case DeleteOp(_, _) => true
    case RestartOp(apps, envs) =>
      Enumerates(apps, s.saved) &&
      forall id :: id in s.saved && s.saved[id].running ==> Plausible(s.saved[id], envs(id))
  }

  const INITIAL := State(map[], map[], map[])
}
