// gateway/proxy_client.go: the outbound manager driving its router.

module ProxyClient {
  import opened Words
  import opened RouteTable
  import opened ProxyRouter
  import opened OutboundSteps
  import opened OutboundProofs

  class ProxyClient {
    var outbounds: Outbounds
    var saved: Outbounds
    var tunStackRunning: bool
    const router: ProxyRouter

    ghost predicate Valid()
      reads this, router
    {
      router.Valid()
    }

    ghost function Abstract(): State
      requires Valid()
      reads this, router
    {
      State(outbounds, saved, tunStackRunning, router.Table())
    }

    /** newProxyClient: what the database holds, an empty router, no tunnel. */
    constructor (db: Outbounds)
      ensures Valid() && fresh(router)
      ensures Abstract() == State(db, db, false, map[])
    {
      outbounds, saved, tunStackRunning := db, db, false;
      router := new ProxyRouter();
    }

    method SaveOutbounds(ok: bool)
      modifies this`saved
      ensures saved == if ok then outbounds else old(saved)
    {
      if ok {
        saved := outbounds;
      }
    }

    method StartTunStack(starts: bool) returns (ok: bool)
      modifies this`tunStackRunning
      ensures ok == tunStackRunning == (old(tunStackRunning) || starts)
    {
      if tunStackRunning {
        return true;
      }
      tunStackRunning := starts;
      return starts;
    }

    method AddOutboundRoute(ob: Stored)
      requires Valid()
      modifies router
      ensures Valid() && Abstract() == OutboundSteps.AddOutboundRoute(old(Abstract()), ob)
    {
      var _ := router.AddRoute(ob.route.value, ob.DialerOf());
    }

    method DeleteOutboundRoute(ob: Stored)
      requires Valid()
      modifies router
      ensures Valid() && Abstract() == OutboundSteps.DeleteOutboundRoute(old(Abstract()), ob)
    {
      router.DelRoute(ob.route.value);
    }

    /** The addOutbound handler, with the id it draws already in ob. */
    method AddOutbound(ob: Outbound, env: Env) returns (ok: bool)
      requires Valid()
      modifies this, router
      ensures Valid() && Abstract() == Add(old(Abstract()), ob, env)
      ensures ok <==> Accepted(ob, env) && env.saves && (ob.open ==> old(tunStackRunning) || env.tunnel)
    {
      if env.peerName == None || !ob.Runnable() {
        return false;
      }
      var named: Stored := ob.(peerName := env.peerName.value);
      outbounds := outbounds[ob.id := named];
      SaveOutbounds(env.saves);
      if !env.saves {
        return false;
      }
      if !named.open {
        return true;
      }
      ok := StartTunStack(env.tunnel);
      if ok {
        AddOutboundRoute(named);
      }
    }

    /** The updateOutbound handler. */
    method UpdateOutbound(ob: Outbound, env: Env) returns (ok: bool)
      requires Valid()
      modifies this, router
      ensures Valid() && Abstract() == Update(old(Abstract()), ob, env)
      ensures ok <==> ob.id != 0 && ob.id in old(outbounds) && Accepted(ob, env) && env.saves &&
                      (old(tunStackRunning) || env.tunnel)
    {
      if ob.id == 0 || ob.id !in outbounds {
        return false;
      }
      var existing := outbounds[ob.id];
      if existing.open {
        DeleteOutboundRoute(existing);
      }
      if env.peerName == None || !ob.Runnable() {
        return false;
      }
      var named: Stored := ob.(peerName := env.peerName.value);
      outbounds := outbounds[ob.id := named];
      SaveOutbounds(env.saves);
      if !env.saves {
        return false;
      }
      ok := StartTunStack(env.tunnel);
      if ok && named.open {
        AddOutboundRoute(named);
      }
    }

    /** The deleteOutbound handler. */
    method DeleteOutbound(id: nat, saves: bool) returns (ok: bool)
      requires Valid()
      modifies this, router
      ensures Valid() && Abstract() == Delete(old(Abstract()), id, saves)
      ensures ok <==> id != 0 && id in old(outbounds) && saves
    {
      if id == 0 || id !in outbounds {
        return false;
      }
      var ob := outbounds[id];
      outbounds := outbounds - {id};
      SaveOutbounds(saves);
      if !saves {
        return false;
      }
      DeleteOutboundRoute(ob);
      return true;
    }

    /** Go leaves the iteration order of a map open; so does this. */
    method ListOutbounds() returns (obs: seq<Stored>)
      ensures Enumerates(obs, outbounds)
    {
      obs := [];
      var rest := outbounds.Keys;
      while rest != {}
        invariant rest <= outbounds.Keys
        invariant forall i :: 0 <= i < |obs| ==>
                    obs[i].id in outbounds && obs[i].id !in rest && outbounds[obs[i].id] == obs[i]
        invariant forall i, j :: 0 <= i < j < |obs| ==> obs[i].id != obs[j].id
        invariant forall id :: id in outbounds && id !in rest ==> outbounds[id] in obs
        decreases |rest|
      {
        var id :| id in rest;
        rest := rest - {id};
        obs := obs + [outbounds[id]];
      }
    }

    /** One round of the loop in Start. */
    method StartOne(ob: Stored, env: Env)
      requires Valid()
      modifies this, router
      ensures Valid() && Abstract() == OutboundSteps.StartOne(old(Abstract()), ob, env)
    {
      if !ob.open {
        return;
      }
      var ok := StartTunStack(env.tunnel);
      if !ok {
        outbounds := outbounds[ob.id := Shut(ob)];
        SaveOutbounds(env.saves);
        return;
      }
      AddOutboundRoute(ob);
    }

    method Start(envs: nat -> Env) returns (obs: seq<Stored>)
      requires Valid()
      modifies this, router
      ensures Valid() && Enumerates(obs, old(outbounds))
      ensures Abstract() == StartAll(old(Abstract()), obs, envs)
    {
      obs := ListOutbounds();
      var i := 0;
      while i < |obs|
        invariant 0 <= i <= |obs| && Valid()
        invariant StartAll(Abstract(), obs[i..], envs) == StartAll(old(Abstract()), obs, envs)
      {
        assert obs[i..][1..] == obs[i + 1..];
        StartOne(obs[i], envs(obs[i].id));
        i := i + 1;
      }
    }

    method Stop(stops: bool) returns (obs: seq<Stored>)
      requires Valid()
      modifies this, router
      ensures Valid() && Enumerates(obs, old(outbounds))
      ensures Abstract() == OutboundSteps.Stop(old(Abstract()), obs, stops)
      ensures old(Sound(Abstract())) ==> router.Table() == map[]
    {
      obs := ListOutbounds();
      ghost var s0 := Abstract();
      var i := 0;
      while i < |obs|
        invariant 0 <= i <= |obs| && Valid()
        invariant DropAll(router.Table(), obs[i..]) == DropAll(s0.table, obs)
        invariant Abstract() == s0.(table := router.Table())
      {
        assert obs[i..][1..] == obs[i + 1..];
        if obs[i].open {
          DeleteOutboundRoute(obs[i]);
        }
        i := i + 1;
      }
      if tunStackRunning && stops {
        tunStackRunning := false;
      }
      if Sound(s0) {
        StopEmptiesTable(s0, obs, stops);
      }
    }

    /** DialContext's choice of dialer for an IPv4 destination. */
    method DialerFor(address: seq<byte>) returns (d: Option<Dialer>)
      requires Valid() && |address| == 4
      ensures forall x :: d == Some(x) <==> Routes(router.Table(), BigEndianValue(address), x)
    {
      var a: seq<int> := address;
      var uip := a[3] + a[2] * 0x100 + a[1] * 0x1_0000 + a[0] * 0x100_0000;
      BigEndianOfFour(address);
      d := router.Get(uip);
    }
  }

  lemma BigEndianOfFour(b: seq<byte>)
    requires |b| == 4
    ensures var a: seq<int> := b;
            BigEndianValue(b) == a[3] + a[2] * 0x100 + a[1] * 0x1_0000 + a[0] * 0x100_0000
  {
    var a: seq<int> := b;
    var c := b[..3];
    var d := c[..2];
    assert BigEndianValue(d[..1]) == a[0];
    assert BigEndianValue(d) == 256 * a[0] + a[1];
    assert BigEndianValue(c) == 256 * BigEndianValue(d) + a[2];
  }
}
