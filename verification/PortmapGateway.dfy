// The port-map objects (portmap/portmap.go, gateway/portmap_app.go) and the app handlers over them.

module PortmapGateway {
  import opened Words
  import opened ListenerKeys
  import opened Listeners
  import opened ListenerProofs

  class Portmap {
    var listeners: ListenerMap

    constructor ()
      ensures listeners == map[]
    {
      listeners := map[];
    }

    /** `opens` is the operating system's answer should a socket be needed. */
    method AddListener(e: Endpoint, opens: Option<int>) returns (ok: bool)
      modifies this
      ensures (listeners, ok) == Listeners.AddListener(old(listeners), e, opens)
    {
      var l;
      if Index(e) in listeners {
        l := listeners[Index(e)];
      } else {
        if opens == None {
          return false;
        }
        l := Socket(UsesTcp(e.network), opens.value);
      }
      listeners := listeners[Index(e.(port := l.port)) := l];
      return true;
    }

    method DeleteListener(e: Endpoint)
      modifies this
      ensures listeners == Listeners.DeleteListener(old(listeners), e)
    {
      var index := Index(e);
      if index in listeners {
        listeners := listeners - {index};
      }
    }

    method Close()
      modifies this
      ensures listeners == map[]
    {
      listeners := map[];
    }
  }

  class PortmapAppMgr {
    var apps: Apps
    var saved: Apps

    /** NewPortmapAppMgr and LoadPortmapApps. */
    constructor (db: Apps)
      ensures apps == saved == db
    {
      apps, saved := db, db;
    }

    method SavePortmap(ok: bool)
      modifies this`saved
      ensures saved == if ok then apps else old(saved)
    {
      if ok {
        saved := apps;
      }
    }

    /** The table in memory changes even when the write fails. */
    method UpdatePortmapApp(a: App, saves: bool)
      modifies this
      ensures apps == old(apps)[a.id := a] && saved == if saves then apps else old(saved)
    {
      apps := apps[a.id := a];
      SavePortmap(saves);
    }

    method DelPortmapApp(id: nat, saves: bool)
      modifies this
      ensures apps == old(apps) - {id} && saved == if saves then apps else old(saved)
    {
      apps := apps - {id};
      SavePortmap(saves);
    }

    /** Go leaves the iteration order of a map open; so does this. */
    method GetPortmapApps() returns (all: seq<App>)
      ensures Enumerates(all, apps)
    {
      all := [];
      var rest := apps.Keys;
      while rest != {}
        invariant rest <= apps.Keys
        invariant forall i :: 0 <= i < |all| ==>
                    all[i].id in apps && all[i].id !in rest && apps[all[i].id] == all[i]
        invariant forall i, j :: 0 <= i < j < |all| ==> all[i].id != all[j].id
        invariant forall id :: id in apps && id !in rest ==> apps[id] in all
        decreases |rest|
      {
        var id :| id in rest;
        rest := rest - {id};
        all := all + [apps[id]];
      }
    }

    /** The first match in map order, running or not; with unique network and port there is only one to find. */
    method FindAppWithPort(network: string, port: int) returns (found: Option<App>)
      ensures found.Some? ==>
                found.value.id in apps && apps[found.value.id] == found.value &&
                found.value.network == network && found.value.port == port
      ensures found == None ==> forall id :: id in apps ==> apps[id].network != network || apps[id].port != port
      ensures UniquePorts(apps) ==>
                forall id :: id in apps && apps[id].network == network && apps[id].port == port ==>
                  found == Some(apps[id])
    {
      var all := GetPortmapApps();
      var i := 0;
      while i < |all|
        invariant 0 <= i <= |all|
        invariant forall j :: 0 <= j < i ==> all[j].network != network || all[j].port != port
      {
        if all[i].port == port && all[i].network == network {
          return Some(all[i]);
        }
        i := i + 1;
      }
      assert forall id :: id in apps ==> apps[id] in all;
      return None;
    }
  }

  class Gateway {
    const pm: Portmap
    const pam: PortmapAppMgr

    constructor (db: Apps)
      ensures fresh(pm) && fresh(pam) && Abstract() == State(db, db, map[])
    {
      pm := new Portmap();
      pam := new PortmapAppMgr(db);
    }

    ghost function Abstract(): State
      reads pm, pam
    {
      State(pam.apps, pam.saved, pm.listeners)
    }

    /** The addApp handler, with the id it draws already in a. */
    method AddApp(a: App, env: Env)
      modifies pm, pam
      ensures Abstract() == Listeners.AddApp(old(Abstract()), a, env)
    {
      if !env.authorised {
        return;
      }
      var app := a;
      if app.running {
        var ok := pm.AddListener(EndpointOf(app), env.opens);
        if !ok {
          app := app.(running := false);
        }
      }
      pam.UpdatePortmapApp(app, env.saves);
    }

    method UpdateApp(a: App, env: Env)
      modifies pm, pam
      ensures Abstract() == Listeners.UpdateApp(old(Abstract()), a, env)
    {
      if a.id == 0 || a.id !in pam.apps {
        return;
      }
      var oldApp := pam.apps[a.id];
      if a.peer != oldApp.peer || a.resource != oldApp.resource {
        if !env.authorised {
          return;
        }
      }
      if oldApp.running {
        pm.DeleteListener(EndpointOf(oldApp));
      }
      var app := a;
      if app.running {
        var ok := pm.AddListener(EndpointOf(app), env.opens);
        if !ok {
          app := app.(running := false);
        }
      }
      pam.UpdatePortmapApp(app, env.saves);
    }

    method DeleteApp(id: nat, saves: bool)
      modifies pm, pam
      ensures Abstract() == Listeners.DeleteApp(old(Abstract()), id, saves)
    {
      if id in pam.apps && pam.apps[id].running {
        pm.DeleteListener(EndpointOf(pam.apps[id]));
      }
      assert id !in pam.apps ==> pam.apps - {id} == pam.apps;
      pam.DelPortmapApp(id, saves);
    }

    /** One round of the startup loop. */
    method StartListener(a: App, env: Env)
      modifies pm, pam
      ensures Abstract() == StartupOne(old(Abstract()), a, env)
    {
      if !a.running {
        return;
      }
      var ok := pm.AddListener(EndpointOf(a), env.opens);
      if !ok {
        pam.UpdatePortmapApp(a.(running := false), env.saves);
      }
    }

    /** The startup loop, on a gateway that has just loaded its apps. */
    method StartListeners(envs: nat -> Env) returns (all: seq<App>)
      modifies pm, pam
      ensures Enumerates(all, old(pam.apps))
      ensures Abstract() == Startup(old(Abstract()), all, envs)
    {
      all := pam.GetPortmapApps();
      var i := 0;
      while i < |all|
        invariant 0 <= i <= |all|
        invariant Startup(Abstract(), all[i..], envs) == Startup(old(Abstract()), all, envs)
      {
        assert all[i..][1..] == all[i + 1..];
        StartListener(all[i], envs(all[i].id));
        i := i + 1;
      }
    }

    /** The handshake function given to the port map: peer and resource of the app found for a connection that the
        socket l accepted. */
    method HandshakeFor(l: Socket) returns (target: Option<(string, nat)>)
      ensures target.Some? ==>
                exists f :: MayFind(pam.apps, Presented(l), l.port, f) && target.value == (f.peer, f.resource)
      ensures forall f :: Finds(pam.apps, Presented(l), l.port, f) ==>
                target == if f.resource == 0 then None else Some((f.peer, f.resource))
    {
      var app := pam.FindAppWithPort(Presented(l), l.port);
      assert app.Some? ==> MayFind(pam.apps, Presented(l), l.port, app.value);
      assert forall f :: MayFind(pam.apps, Presented(l), l.port, f) ==> app.Some?;
      if app == None || app.value.resource == 0 {
        return None;
      }
      return Some((app.value.peer, app.value.resource));
    }

    /** A connection accepted by a running app's listener reaches that app's peer and resource, if its network is plain
        and its network and port are its own. */
    method HandshakeForOwner(ghost id: nat, l: Socket) returns (target: Option<(string, nat)>)
      requires Agree(Abstract()) && RightKinds(pm.listeners)
      requires id in pam.apps && pam.apps[id].running && Index(EndpointOf(pam.apps[id])) in pm.listeners
      requires l == pm.listeners[Index(EndpointOf(pam.apps[id]))] && Sole(pam.apps, id)
      requires pam.apps[id].network == "tcp" || pam.apps[id].network == "udp"
      ensures target == if pam.apps[id].resource == 0 then None else Some((pam.apps[id].peer, pam.apps[id].resource))
    {
      LookupFindsOwnerIff(Abstract(), id);
      target := HandshakeFor(l);
    }
  }
}
