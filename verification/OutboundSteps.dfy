// The outbound manager, its router and tunnel flag as one state, and every handler as a step
// (gateway/proxy_client.go, outbound handlers of gateway/gateway.go).

module OutboundSteps {
  import opened Words
  import opened Cidr
  import opened RouteTable

  /** socksOutbound. `peer` and `route` carry what peer.Decode and net.ParseCIDR make of the stored text. */
  datatype Outbound = Outbound(
    id: nat, open: bool, peer: Option<string>, peerName: string, token: word, route: Option<IpNet>)
  {
    /** socks5OutboundFillRunningInfo succeeds. */
    predicate Runnable() {
      peer.Some? && route.Some?
    }

    function Range(): Range
      requires Runnable()
    {
      GetCidrIntRange(route.value)
    }

    /** socks5.NewDialer over the running info: the token's eight bytes serve as name and password. */
    function DialerOf(): Dialer
      requires Runnable()
    {
      Dialer(peer.value, LittleEndian(token, 8), LittleEndian(token, 8))
    }
  }

  type Stored = ob: Outbound | ob.Runnable()
    witness Outbound(0, false, Some(""), "", 0, Some(IpNet([], 0, 0)))

  /** Only outbounds whose running info could be filled in are ever stored. */
  type Outbounds = m: map<nat, Stored> | forall id :: id in m ==> m[id].id == id

  /** `saved` is what the database holds, `running` is tunStackRunning. */
  datatype State = State(outbounds: Outbounds, saved: Outbounds, running: bool, table: Table)

  /** What the environment answers during one step: peer check, database write, tunnel start. */
  datatype Env = Env(peerName: Option<string>, saves: bool, tunnel: bool)

  function Save(s: State, obs: Outbounds, ok: bool): State {
    s.(outbounds := obs, saved := if ok then obs else s.saved)
  }

  ghost function AddOutboundRoute(s: State, ob: Stored): State
  {
    s.(table := WithRoute(s.table, ob.Range(), ob.DialerOf()))
  }

  ghost function DeleteOutboundRoute(s: State, ob: Stored): State
  {
    s.(table := WithoutRoute(s.table, ob.Range()))
  }

  /** startTunStack followed by the route of an open outbound. */
  ghost function Serve(s: State, ob: Stored, tunnel: bool): State
  {
    if !s.running && !tunnel then s
    else if !ob.open then s.(running := true)
    else AddOutboundRoute(s.(running := true), ob)
  }

  /** proxyClient.AddOutbound: a closed outbound does not start the tunnel. */
  ghost function Add(s: State, ob: Outbound, env: Env): State
  {
    if env.peerName == None || !ob.Runnable() then s
    else
      var ob: Stored := ob.(peerName := env.peerName.value);
      var s1 := Save(s, s.outbounds[ob.id := ob], env.saves);
      if !env.saves || !ob.open then s1 else Serve(s1, ob, env.tunnel)
  }

  /** proxyClient.UpdateOutbound: the tunnel is started even for a closed outbound. */
  ghost function UpdateKnown(s: State, ob: Outbound, env: Env): State
  {
    if env.peerName == None || !ob.Runnable() then s
    else
      var ob: Stored := ob.(peerName := env.peerName.value);
      var s1 := Save(s, s.outbounds[ob.id := ob], env.saves);
      if !env.saves then s1 else Serve(s1, ob, env.tunnel)
  }

  ghost function OldRouteDropped(s: State, id: nat): State
    requires id in s.outbounds
  {
    if s.outbounds[id].open then DeleteOutboundRoute(s, s.outbounds[id]) else s
  }

  /** The updateOutbound handler: the old route goes first, whatever happens to the update. */
  ghost function Update(s: State, ob: Outbound, env: Env): State
  {
    if ob.id == 0 || ob.id !in s.outbounds then s
    else UpdateKnown(OldRouteDropped(s, ob.id), ob, env)
  }

  /** The deleteOutbound handler: a failed write leaves the route in place. */
  ghost function Delete(s: State, id: nat, saves: bool): State
  {
    if id == 0 || id !in s.outbounds then s
    else
      var s1 := Save(s, s.outbounds - {id}, saves);
      if saves then DeleteOutboundRoute(s1, s.outbounds[id]) else s1
  }

  function Shut(ob: Stored): Stored {
    ob.(open := false)
  }

  /** One round of the loop in proxyClient.Start. */
  ghost function StartOne(s: State, ob: Stored, env: Env): State
  {
    if !ob.open then s
    else if !s.running && !env.tunnel then Save(s, s.outbounds[ob.id := Shut(ob)], env.saves)
    else AddOutboundRoute(s.(running := true), ob)
  }

  ghost function StartAll(s: State, obs: seq<Stored>, env: nat -> Env): State
    decreases |obs|
  {
    if obs == [] then s else StartAll(StartOne(s, obs[0], env(obs[0].id)), obs[1..], env)
  }

  ghost function DropAll(t: Table, obs: seq<Stored>): Table
  {
    if obs == [] then t
    else DropAll(if obs[0].open then WithoutRoute(t, obs[0].Range()) else t, obs[1..])
  }

  /** proxyClient.Stop; the flag stays up when the tunnel refuses to stop. */
  ghost function Stop(s: State, obs: seq<Stored>, stops: bool): State
  {
    s.(table := DropAll(s.table, obs), running := s.running && !stops)
  }

  /** A new process: empty router, tunnel down, outbounds reloaded. */
  function Reload(s: State): State {
    State(s.saved, s.saved, false, map[])
  }

  /** obs lists the map's values once each, in any order. */
  ghost predicate Enumerates(obs: seq<Stored>, m: Outbounds)
  {
    (forall i :: 0 <= i < |obs| ==> obs[i].id in m && m[obs[i].id] == obs[i]) &&
    (forall i, j :: 0 <= i < j < |obs| ==> obs[i].id != obs[j].id) &&
    (forall id :: id in m ==> m[id] in obs)
  }

  // Runs

  datatype Op =
    | AddOp(ob: Outbound, env: Env)
    | UpdateOp(ob: Outbound, env: Env)
    | DeleteOp(id: nat, saves: bool)
    | StartOp(obs: seq<Stored>, envs: nat -> Env)
    | StopOp(obs: seq<Stored>, stops: bool)
    | ReloadOp

  /** Fresh ids, and enumerations of what is there. */
  ghost predicate Honest(s: State, op: Op)
  {
    match op
    case AddOp(ob, _) => ob.id !in s.outbounds
    case StartOp(obs, _) => Enumerates(obs, s.outbounds)
    case StopOp(obs, _) => Enumerates(obs, s.outbounds)
    case _ => true
  }

  ghost function Step(s: State, op: Op): State
  {
    match op
    case AddOp(ob, env) => Add(s, ob, env)
    case UpdateOp(ob, env) => Update(s, ob, env)
    case DeleteOp(id, saves) => Delete(s, id, saves)
    case StartOp(obs, envs) => StartAll(s, obs, envs)
    case StopOp(obs, stops) => Stop(s, obs, stops)
    case ReloadOp => Reload(s)
  }

  const INITIAL := State(map[], map[], false, map[])
}
