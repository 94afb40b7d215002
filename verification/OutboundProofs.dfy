// What every run of the outbound manager keeps.

module OutboundProofs {
  import opened Words
  import opened Cidr
  import opened RouteTable
  import opened Claims
  import opened OutboundSteps

  function ClaimOf(ob: Stored): Claim {
    Claim(ob.open, ob.Range(), ob.DialerOf())
  }

  function ClaimsOf(obs: Outbounds): (cs: Claims)
    ensures cs.Keys == obs.Keys
  {
    map id | id in obs :: ClaimOf(obs[id])
  }

  lemma ClaimsOfPut(obs: Outbounds, ob: Stored)
    ensures ClaimsOf(obs[ob.id := ob]) == ClaimsOf(obs)[ob.id := ClaimOf(ob)]
  {
  }

  lemma ClaimsOfRemove(obs: Outbounds, id: nat)
    ensures ClaimsOf(obs - {id}) == ClaimsOf(obs) - {id}
  {
  }

  // ---- Soundness: no route outlives its outbound ----

  /** Every table entry is the range and dialer of an outbound that is open now. */
  ghost predicate Sound(s: State)
  {
    Backed(s.table, ClaimsOf(s.outbounds), s.outbounds.Keys)
  }

  ghost predicate Inv(s: State)
  {
    Sound(s) && (!s.running ==> s.table == map[])
  }

  lemma ServeKeepsInv(s: State, ob: Stored, tunnel: bool)
    requires Inv(s) && ob.id in s.outbounds && s.outbounds[ob.id] == ob
    ensures Inv(Serve(s, ob, tunnel))
  {
  }

  lemma WithoutRouteSound(s: State, ob: Stored)
    requires Sound(s)
    ensures Sound(DeleteOutboundRoute(s, ob))
  {
  }

  /** Storing a record is safe once its predecessor's range start is out of the table. */
  lemma StoredKeepsInv(s: State, ob: Stored, ok: bool)
    requires Inv(s)
    requires ob.id in s.outbounds && s.outbounds[ob.id].open ==> s.outbounds[ob.id].Range().lo !in s.table
    ensures Inv(Save(s, s.outbounds[ob.id := ob], ok))
  {
    ClaimsOfPut(s.outbounds, ob);
    ReplacedBacked(s.table, ClaimsOf(s.outbounds), ClaimsOf(s.outbounds[ob.id := ob]), ob.id);
  }

  lemma AddKeepsInv(s: State, ob: Outbound, env: Env)
    requires Inv(s) && ob.id !in s.outbounds
    ensures Inv(Add(s, ob, env))
  {
    if env.peerName != None && ob.Runnable() {
      var ob': Stored := ob.(peerName := env.peerName.value);
      StoredKeepsInv(s, ob', env.saves);
      ServeKeepsInv(Save(s, s.outbounds[ob.id := ob'], env.saves), ob', env.tunnel);
    }
  }

  lemma UpdateKnownKeepsInv(s: State, ob: Outbound, env: Env)
    requires Inv(s)
    requires ob.id in s.outbounds && s.outbounds[ob.id].open ==> s.outbounds[ob.id].Range().lo !in s.table
    ensures Inv(UpdateKnown(s, ob, env))
  {
    if env.peerName != None && ob.Runnable() {
      var ob': Stored := ob.(peerName := env.peerName.value);
      StoredKeepsInv(s, ob', env.saves);
      ServeKeepsInv(Save(s, s.outbounds[ob.id := ob'], env.saves), ob', env.tunnel);
    }
  }

  lemma UpdateKeepsInv(s: State, ob: Outbound, env: Env)
    requires Inv(s)
    ensures Inv(Update(s, ob, env))
  {
    if ob.id != 0 && ob.id in s.outbounds {
      WithoutRouteSound(s, s.outbounds[ob.id]);
      UpdateKnownKeepsInv(OldRouteDropped(s, ob.id), ob, env);
    }
  }

  /** The outbound has an entry that no other open outbound wants. */
  ghost predicate SoleUser(s: State, id: nat)
    requires id in s.outbounds
  {
    SoleOwner(s.table, ClaimsOf(s.outbounds), id)
  }

  /** A deletion that fails to write its result forgets the outbound but leaves its route standing. */
  lemma DeleteSoundIff(s: State, id: nat, saves: bool)
    requires Sound(s)
    ensures Sound(Delete(s, id, saves)) <==> id == 0 || id !in s.outbounds || saves || !SoleUser(s, id)
  {
    if id != 0 && id in s.outbounds {
      var cs, cs' := ClaimsOf(s.outbounds), ClaimsOf(s.outbounds - {id});
      ClaimsOfRemove(s.outbounds, id);
      if saves {
        ReplacedBacked(WithoutRoute(s.table, cs[id].range), cs, cs', id);
      } else {
        ForgottenBackedIff(s.table, cs, id);
      }
    }
  }

  /** An honest step that is no unsaved deletion of an outbound alone on its route. */
  ghost predicate Legal(s: State, op: Op)
  {
    Honest(s, op) &&
    match op
    case DeleteOp(id, saves) => id == 0 || id !in s.outbounds || saves || !SoleUser(s, id)
    case _ => true
  }

  lemma StartOneKeepsInv(s: State, ob: Stored, env: Env)
    requires Inv(s) && ob.id in s.outbounds && s.outbounds[ob.id] == ob
    ensures Inv(StartOne(s, ob, env))
  {
    if ob.open {
      if s.running || env.tunnel {
        ServeKeepsInv(s, ob, env.tunnel);
      } else {
        StoredKeepsInv(s, Shut(ob), env.saves);
      }
    }
  }

  /** obs are records of the map, each listed at most once. */
  ghost predicate Listed(obs: seq<Stored>, m: Outbounds)
  {
    (forall i :: 0 <= i < |obs| ==> obs[i].id in m && m[obs[i].id] == obs[i]) &&
    (forall i, j :: 0 <= i < j < |obs| ==> obs[i].id != obs[j].id)
  }

  lemma ListedTail(obs: seq<Stored>, s: State, env: Env)
    requires obs != [] && Listed(obs, s.outbounds)
    ensures Listed(obs[1..], StartOne(s, obs[0], env).outbounds)
  {
  }

  lemma {:induction false} StartKeepsInv(s: State, obs: seq<Stored>, envs: nat -> Env)
    requires Inv(s) && Listed(obs, s.outbounds)
    ensures Inv(StartAll(s, obs, envs))
    decreases |obs|
  {
    if obs != [] {
      var env := envs(obs[0].id);
      StartOneKeepsInv(s, obs[0], env);
      ListedTail(obs, s, env);
      StartKeepsInv(StartOne(s, obs[0], env), obs[1..], envs);
    }
  }

  function OpenStarts(obs: seq<Stored>): set<nat>
  {
    if obs == [] then {}
    else if obs[0].open then {obs[0].Range().lo} + OpenStarts(obs[1..])
    else OpenStarts(obs[1..])
  }

  lemma {:induction false} OpenStartsHolds(obs: seq<Stored>, i: nat)
    requires i < |obs| && obs[i].open
    ensures obs[i].Range().lo in OpenStarts(obs)
  {
    if i > 0 {
      OpenStartsHolds(obs[1..], i - 1);
    }
  }

  lemma {:induction false} DropAllEmpties(t: Table, obs: seq<Stored>)
    requires t.Keys <= OpenStarts(obs)
    ensures DropAll(t, obs) == map[]
  {
    if obs != [] {
      DropAllEmpties(if obs[0].open then WithoutRoute(t, obs[0].Range()) else t, obs[1..]);
    }
  }

  /** Stopping after any run leaves no route behind. */
  lemma StopEmptiesTable(s: State, obs: seq<Stored>, stops: bool)
    requires Sound(s) && Enumerates(obs, s.outbounds)
    ensures Stop(s, obs, stops).table == map[]
  {
    forall k | k in s.table
      ensures k in OpenStarts(obs)
    {
      var id :| id in s.outbounds && Justifies(ClaimsOf(s.outbounds)[id], k, s.table[k]);
      assert s.outbounds[id] in obs;
      var i :| 0 <= i < |obs| && obs[i] == s.outbounds[id];
      OpenStartsHolds(obs, i);
    }
    DropAllEmpties(s.table, obs);
  }

  lemma {:induction false} DropAllIff(t: Table, obs: seq<Stored>, k: nat)
    ensures k in DropAll(t, obs) <==> k in t && k !in OpenStarts(obs)
    ensures k in DropAll(t, obs) ==> DropAll(t, obs)[k] == t[k]
  {
    if obs != [] {
      DropAllIff(if obs[0].open then WithoutRoute(t, obs[0].Range()) else t, obs[1..], k);
    }
  }

  lemma {:induction false} OpenStartsIff(obs: seq<Stored>, k: nat)
    ensures k in OpenStarts(obs) <==> exists i :: 0 <= i < |obs| && obs[i].open && obs[i].Range().lo == k
  {
    if obs != [] {
      var rest := obs[1..];
      OpenStartsIff(rest, k);
      assert forall i :: 0 <= i < |rest| ==> rest[i] == obs[i + 1];
      if i :| 0 <= i < |obs| && obs[i].open && obs[i].Range().lo == k {
        assert i == 0 || (rest[i - 1].open && rest[i - 1].Range().lo == k);
      }
      if i :| 0 <= i < |rest| && rest[i].open && rest[i].Range().lo == k {
        assert obs[i + 1].open && obs[i + 1].Range().lo == k;
      }
    }
  }

  /** In any state Stop removes exactly the routes that start where some open outbound does. */
  lemma StopRemovesIff(s: State, obs: seq<Stored>, stops: bool, k: nat)
    ensures var t := Stop(s, obs, stops).table;
            (k in t <==> k in s.table && !exists i :: 0 <= i < |obs| && obs[i].open && obs[i].Range().lo == k) &&
            (k in t ==> t[k] == s.table[k])
  {
    DropAllIff(s.table, obs, k);
    OpenStartsIff(obs, k);
  }

  /** Of the honest steps only the unsaved deletion can break soundness. */
  lemma StepKeepsInvIff(s: State, op: Op)
    requires Inv(s) && Honest(s, op)
    ensures Inv(Step(s, op)) <==> Legal(s, op)
  {
    match op
    case AddOp(ob, env) => AddKeepsInv(s, ob, env);
    case UpdateOp(ob, env) => UpdateKeepsInv(s, ob, env);
    case DeleteOp(id, saves) => DeleteSoundIff(s, id, saves);
    case StartOp(obs, envs) => StartKeepsInv(s, obs, envs);
    case StopOp(obs, stops) => StopEmptiesTable(s, obs, stops);
    case ReloadOp =>
  }

  ghost predicate LegalRun(s: State, ops: seq<Op>)
    decreases |ops|
  {
    ops == [] || (Legal(s, ops[0]) && LegalRun(Step(s, ops[0]), ops[1..]))
  }

  ghost function Exec(s: State, ops: seq<Op>): State
    decreases |ops|
  {
    if ops == [] then s else Exec(Step(s, ops[0]), ops[1..])
  }

  /** Soundness over whole runs, with failing peer checks, tunnels, writes and refused routes. */
  lemma {:induction false} RunsAreSound(s: State, ops: seq<Op>)
    requires Inv(s) && LegalRun(s, ops)
    ensures Inv(Exec(s, ops))
    decreases |ops|
  {
    if ops != [] {
      StepKeepsInvIff(s, ops[0]);
      RunsAreSound(Step(s, ops[0]), ops[1..]);
    }
  }

  // ---- Exactness: the table is the open outbounds ----

  /** The table maps each open outbound's range to its dialer and holds nothing else. */
  ghost predicate Exact(s: State)
  {
    Exactly(s.table, ClaimsOf(s.outbounds), s.outbounds.Keys)
  }

  /** Every open outbound but this one has its route. */
  ghost predicate OthersRouted(s: State, id: nat)
  {
    Honoured(s.table, ClaimsOf(s.outbounds), s.outbounds.Keys - {id})
  }

  /** Another open outbound's range starts where this one's does. */
  ghost predicate Twinned(s: State, id: nat)
    requires id in s.outbounds
  {
    StartsShared(ClaimsOf(s.outbounds), id)
  }

  /** The write succeeds and the tunnel is up: a route is asked for. */
  predicate Reaches(s: State, env: Env)
  {
    env.saves && (s.running || env.tunnel)
  }

  /** A saved deletion takes whatever starts at the outbound's base, an unsaved one leaves even what is its own. */
  ghost predicate Deletable(s: State, id: nat, saves: bool)
    requires id in s.outbounds
  {
    OthersRouted(s, id) && if saves then !Twinned(s, id) else !SoleUser(s, id)
  }

  /** When a step leaves the table exact, told before it is taken; for Start, by the outbounds it leaves open. */
  ghost predicate Served(s: State, op: Op)
  {
    match op
    case AddOp(ob, env) => env.peerName == None || !ob.Runnable() ||
      Admitted(ClaimsOf(s.outbounds), ob.id, ClaimOf(ob), Reaches(s, env))
    case UpdateOp(ob, env) =>
      ob.id == 0 || ob.id !in s.outbounds ||
      if env.peerName == None || !ob.Runnable() then !s.outbounds[ob.id].open
      else
        Admitted(ClaimsOf(s.outbounds), ob.id, ClaimOf(ob), Reaches(s, env)) &&
        GivesBack(ClaimsOf(s.outbounds), ob.id, ClaimOf(ob), Reaches(s, env))
    case DeleteOp(id, saves) => id == 0 || id !in s.outbounds || Deletable(s, id, saves)
    case StartOp(obs, envs) => Compatible(ClaimsOf(StartAll(s, obs, envs).outbounds))
    case _ => true
  }

  /** addRoute's refusal goes unnoticed: an open outbound that overlaps another is saved without a route. */
  lemma AddExactIff(s: State, ob: Outbound, env: Env)
    requires Exact(s) && Honest(s, AddOp(ob, env))
    ensures Exact(Add(s, ob, env)) <==> Served(s, AddOp(ob, env))
  {
    if env.peerName != None && ob.Runnable() {
      var cs, ob' := ClaimsOf(s.outbounds), ob.(peerName := env.peerName.value);
      ClaimsOfPut(s.outbounds, ob');
      assert cs.Keys - {ob.id} == cs.Keys;
      if ob.open && Reaches(s, env) {
        ServedIff(s.table, cs, ob.id, ClaimOf(ob'));
      } else {
        UnservedIff(s.table, cs, ob.id, ClaimOf(ob'));
      }
    }
  }

  /** What an update that passes check and parse makes of outbounds and table. */
  lemma Updated(s: State, ob: Outbound, env: Env)
    requires ob.id != 0 && ob.id in s.outbounds && env.peerName != None && ob.Runnable()
    ensures var (s', t) := (Update(s, ob, env), OldRouteDropped(s, ob.id).table);
            s'.outbounds == s.outbounds[ob.id := ob.(peerName := env.peerName.value)] &&
            s'.table == if Reaches(s, env) && ob.open then WithRoute(t, ob.Range(), ob.DialerOf()) else t
  {
    assert OldRouteDropped(s, ob.id).outbounds == s.outbounds && OldRouteDropped(s, ob.id).running == s.running;
  }

  lemma UpdatedExactIff(s: State, ob: Stored, serves: bool, s': State)
    requires Exact(s) && ob.id in s.outbounds && s'.outbounds == s.outbounds[ob.id := ob]
    requires var t := OldRouteDropped(s, ob.id).table;
             s'.table == if serves && ob.open then WithRoute(t, ob.Range(), ob.DialerOf()) else t
    ensures var (cs, c) := (ClaimsOf(s.outbounds), ClaimOf(ob));
            Exact(s') <==> Admitted(cs, ob.id, c, serves) && GivesBack(cs, ob.id, c, serves)
  {
    var cs, c, t := ClaimsOf(s.outbounds), ClaimOf(ob), OldRouteDropped(s, ob.id).table;
    assert ClaimsOf(s'.outbounds) == cs[ob.id := c] by { ClaimsOfPut(s.outbounds, ob); }
    assert t == if cs[ob.id].open then WithoutRoute(s.table, cs[ob.id].range) else s.table;
    ReplacedIff(s.table, cs, ob.id, c, serves, t, s'.table);
  }

  /** A failed peer check on an open outbound costs it its live route: the old one is deleted first. */
  lemma UpdateExactIff(s: State, ob: Outbound, env: Env)
    requires Exact(s)
    ensures Exact(Update(s, ob, env)) <==> Served(s, UpdateOp(ob, env))
  {
    if ob.id != 0 && ob.id in s.outbounds {
      if env.peerName != None && ob.Runnable() {
        Updated(s, ob, env);
        UpdatedExactIff(s, ob.(peerName := env.peerName.value), Reaches(s, env), Update(s, ob, env));
      } else {
        UpdateFailedExactIff(s, ob.id);
      }
    }
  }

  lemma UpdateFailedExactIff(s: State, id: nat)
    requires Exact(s) && id in s.outbounds
    ensures Exact(OldRouteDropped(s, id)) <==> !s.outbounds[id].open
  {
    assert s.outbounds[id].open ==> !Has(OldRouteDropped(s, id).table, ClaimsOf(s.outbounds)[id]);
  }

  /** From any sound state: the route goes by its range start, whether the deleted outbound was open, or had one. */
  lemma DeleteExactIff(s: State, id: nat, saves: bool)
    requires Sound(s)
    ensures Exact(Delete(s, id, saves)) <==>
            if id == 0 || id !in s.outbounds then Exact(s) else Deletable(s, id, saves)
  {
    if id != 0 && id in s.outbounds {
      ClaimsOfRemove(s.outbounds, id);
      if saves {
        TakenAwayIff(s.table, ClaimsOf(s.outbounds), id);
      } else {
        ForgottenIff(s.table, ClaimsOf(s.outbounds), id);
      }
    }
  }

  /** The outbound is open and the table sends its block to its dialer. */
  ghost predicate Routed(s: State, id: nat)
  {
    id in s.outbounds && s.outbounds[id].open && Has(s.table, ClaimOf(s.outbounds[id]))
  }

  /** In any state at all, a deletion costs another outbound its route exactly when it is saved and the bases agree. */
  lemma DeletionUnroutesIff(s: State, id: nat, saves: bool, other: nat)
    requires id != 0 && id in s.outbounds && other != id && Routed(s, other)
    ensures !Routed(Delete(s, id, saves), other) <==>
            saves && s.outbounds[id].Range().lo == s.outbounds[other].Range().lo
  {
  }

  /** Deleting an open outbound with a failed write leaves an entry nobody owns, unless another wants the same. */
  lemma UnsavedDeletionOrphans(s: State, id: nat)
    requires Exact(s) && id in s.outbounds && s.outbounds[id].open && id != 0
    ensures Sound(Delete(s, id, false)) <==> Twinned(s, id)
  {
    DeleteSoundIff(s, id, false);
    EntryDropped(s.table, ClaimsOf(s.outbounds), id);
  }

  function Ids(obs: seq<Stored>): set<nat>
  {
    if obs == [] then {} else {obs[0].id} + Ids(obs[1..])
  }

  lemma {:induction false} IdsHolds(obs: seq<Stored>)
    ensures forall ob :: ob in obs ==> ob.id in Ids(obs)
  {
    if obs != [] {
      IdsHolds(obs[1..]);
      assert obs == [obs[0]] + obs[1..];
    }
  }

  /** A tunnel that does not start turns the outbound off; no route stands at that point. */
  lemma ShutExact(s: State, ob: Stored, done: set<nat>)
    requires Exactly(s.table, ClaimsOf(s.outbounds), done) && s.table == map[]
    requires ob.id in s.outbounds && s.outbounds[ob.id] == ob && ob.open
    ensures Exactly(s.table, ClaimsOf(s.outbounds[ob.id := Shut(ob)]), done + {ob.id})
  {
    ClaimsOfPut(s.outbounds, Shut(ob));
    NothingServed(s.table, ClaimsOf(s.outbounds), done, ob.id);
  }

  lemma StartOneExact(s: State, ob: Stored, env: Env, done: set<nat>)
    requires Exactly(s.table, ClaimsOf(s.outbounds), done) && (!s.running ==> s.table == map[])
    requires ob.id in s.outbounds && s.outbounds[ob.id] == ob
    requires ob.open && (s.running || env.tunnel) ==> Fits(ClaimsOf(s.outbounds), ob.id, ClaimOf(ob))
    ensures var s' := StartOne(s, ob, env);
            Exactly(s'.table, ClaimsOf(s'.outbounds), done + {ob.id}) && (!s'.running ==> s'.table == map[])
  {
    if !ob.open {
      ClosedIsFree(s.table, ClaimsOf(s.outbounds), done, ob.id);
    } else if s.running || env.tunnel {
      RouteGrows(s.table, ClaimsOf(s.outbounds), done, ob.id);
    } else {
      ShutExact(s, ob, done);
    }
  }

  /** Once the tunnel is up, or sure to come up, no outbound is turned off. */
  lemma {:induction false} StartKeepsOutbounds(s: State, obs: seq<Stored>, envs: nat -> Env)
    requires s.running || forall id :: envs(id).tunnel
    ensures StartAll(s, obs, envs).outbounds == s.outbounds
    decreases |obs|
  {
    if obs != [] {
      StartKeepsOutbounds(StartOne(s, obs[0], envs(obs[0].id)), obs[1..], envs);
    }
  }

  lemma {:induction false} StartExact(s: State, obs: seq<Stored>, envs: nat -> Env, done: set<nat>)
    requires Exactly(s.table, ClaimsOf(s.outbounds), done) && (!s.running ==> s.table == map[])
    requires Listed(obs, s.outbounds) && Compatible(ClaimsOf(StartAll(s, obs, envs).outbounds))
    ensures Exactly(StartAll(s, obs, envs).table, ClaimsOf(StartAll(s, obs, envs).outbounds), done + Ids(obs))
    decreases |obs|
  {
    if obs == [] {
      assert done + {} == done;
    } else {
      var ob, env := obs[0], envs(obs[0].id);
      if ob.open && (s.running || env.tunnel) {
        StartKeepsOutbounds(StartOne(s, ob, env), obs[1..], envs);
        assert ClaimsOf(s.outbounds)[ob.id] == ClaimOf(ob);
      }
      StartOneExact(s, ob, env, done);
      ListedTail(obs, s, env);
      StartExact(StartOne(s, ob, env), obs[1..], envs, done + {ob.id});
      assert done + {ob.id} + Ids(obs[1..]) == done + Ids(obs);
    }
  }

  lemma {:induction false} StartKeepsKeys(s: State, obs: seq<Stored>, envs: nat -> Env)
    requires Listed(obs, s.outbounds)
    ensures StartAll(s, obs, envs).outbounds.Keys == s.outbounds.Keys
    decreases |obs|
  {
    if obs != [] {
      ListedTail(obs, s, envs(obs[0].id));
      StartKeepsKeys(StartOne(s, obs[0], envs(obs[0].id)), obs[1..], envs);
    }
  }

  /** Start serves every outbound it leaves open exactly when those are compatible, in any enumeration order. */
  lemma StartExactIff(s: State, obs: seq<Stored>, envs: nat -> Env)
    requires s.table == map[] && Enumerates(obs, s.outbounds)
    ensures Exact(StartAll(s, obs, envs)) <==> Compatible(ClaimsOf(StartAll(s, obs, envs).outbounds))
  {
    var s' := StartAll(s, obs, envs);
    if Compatible(ClaimsOf(s'.outbounds)) {
      StartExact(s, obs, envs, {});
      StartKeepsKeys(s, obs, envs);
      EnumeratedIds(obs, s.outbounds);
      AllDone(s'.table, ClaimsOf(s'.outbounds), {} + Ids(obs));
    } else if Exact(s') {
      ExactIsCompatible(s'.table, ClaimsOf(s'.outbounds));
    }
  }

  lemma EnumeratedIds(obs: seq<Stored>, m: Outbounds)
    requires Enumerates(obs, m)
    ensures m.Keys <= Ids(obs)
  {
    IdsHolds(obs);
    assert forall id :: id in m ==> m[id] in obs && m[id].id == id;
  }

  /** Serving or waiting for Start: handlers are registered after Start and gone before Stop. */
  predicate Timely(serving: bool, op: Op)
  {
    match op
    case StartOp(_, _) => !serving
    case ReloadOp => !serving
    case _ => serving
  }

  ghost function Serving(serving: bool, op: Op): bool
  {
    op.StartOp? || (serving && !op.StopOp?)
  }

  ghost function ServingAfter(serving: bool, ops: seq<Op>): bool
    decreases |ops|
  {
    if ops == [] then serving else ServingAfter(Serving(serving, ops[0]), ops[1..])
  }

  /** Exact while serving, empty while waiting. */
  ghost predicate InStep(s: State, serving: bool)
  {
    if serving then Exact(s) else s.table == map[]
  }

  ghost predicate TimelyRun(s: State, serving: bool, ops: seq<Op>)
    decreases |ops|
  {
    ops == [] ||
    (Honest(s, ops[0]) && Timely(serving, ops[0]) &&
     TimelyRun(Step(s, ops[0]), Serving(serving, ops[0]), ops[1..]))
  }

  /** Every step of the run is served in the state it meets. */
  ghost predicate ServedRun(s: State, ops: seq<Op>)
    decreases |ops|
  {
    ops == [] || (Served(s, ops[0]) && ServedRun(Step(s, ops[0]), ops[1..]))
  }

  /** The table is in step after each prefix of the run. */
  ghost predicate StaysInStep(s: State, serving: bool, ops: seq<Op>)
    decreases |ops|
  {
    InStep(s, serving) &&
    (ops == [] || StaysInStep(Step(s, ops[0]), Serving(serving, ops[0]), ops[1..]))
  }

  lemma StepStaysInStepIff(s: State, serving: bool, op: Op)
    requires Inv(s) && Honest(s, op) && Timely(serving, op) && InStep(s, serving)
    ensures InStep(Step(s, op), Serving(serving, op)) <==> Served(s, op)
    ensures Served(s, op) ==> Inv(Step(s, op))
  {
    StepKeepsInvIff(s, op);
    match op
    case AddOp(ob, env) => AddExactIff(s, ob, env);
    case UpdateOp(ob, env) => UpdateExactIff(s, ob, env);
    case DeleteOp(id, saves) => DeleteExactIff(s, id, saves);
    case StartOp(obs, envs) => StartExactIff(s, obs, envs);
    case StopOp(obs, stops) => StopEmptiesTable(s, obs, stops);
    case ReloadOp =>
  }

  /** Over whole runs: the table is the open outbounds' routes all along exactly when every step is served. */
  lemma {:induction false} RunsAreExactIff(s: State, serving: bool, ops: seq<Op>)
    requires Inv(s) && InStep(s, serving) && TimelyRun(s, serving, ops)
    ensures StaysInStep(s, serving, ops) <==> ServedRun(s, ops)
    decreases |ops|
  {
    if ops != [] {
      StepStaysInStepIff(s, serving, ops[0]);
      if Served(s, ops[0]) {
        RunsAreExactIff(Step(s, ops[0]), Serving(serving, ops[0]), ops[1..]);
      }
    }
  }

  lemma {:induction false} LastInStep(s: State, serving: bool, ops: seq<Op>)
    requires StaysInStep(s, serving, ops)
    ensures InStep(Exec(s, ops), ServingAfter(serving, ops))
    decreases |ops|
  {
    if ops != [] {
      LastInStep(Step(s, ops[0]), Serving(serving, ops[0]), ops[1..]);
    }
  }

  /** A served run from an empty manager that is serving at its end. */
  ghost predicate Serves(ops: seq<Op>)
  {
    TimelyRun(INITIAL, false, ops) && ServedRun(INITIAL, ops) && ServingAfter(false, ops)
  }

  lemma ServesExactly(ops: seq<Op>)
    requires Serves(ops)
    ensures Exact(Exec(INITIAL, ops))
  {
    RunsAreExactIff(INITIAL, false, ops);
    LastInStep(INITIAL, false, ops);
  }

  // ---- Restart ----

  /** A restart rebuilds the very same table, for every enumeration order of the reloaded map. */
  lemma RestartRebuildsTable(s: State, obs: seq<Stored>, envs: nat -> Env)
    requires Exact(s) && s.saved == s.outbounds
    requires Enumerates(obs, s.saved) && forall id :: envs(id).tunnel
    ensures StartAll(Reload(s), obs, envs).table == s.table
  {
    ExactIsCompatible(s.table, ClaimsOf(s.outbounds));
    StartKeepsOutbounds(Reload(s), obs, envs);
    StartExactIff(Reload(s), obs, envs);
    ExactTableUnique(s.table, StartAll(Reload(s), obs, envs).table, ClaimsOf(s.outbounds));
  }

  ghost predicate Writes(op: Op)
  {
    match op
    case AddOp(_, env) => env.saves
    case UpdateOp(_, env) => env.saves
    case DeleteOp(_, saves) => saves
    case StartOp(_, envs) => forall id :: envs(id).saves
    case _ => true
  }

  /** With every write succeeding the database holds the manager's map. */
  lemma SavedStaysCurrent(s: State, op: Op)
    requires s.saved == s.outbounds && Writes(op)
    ensures Step(s, op).saved == Step(s, op).outbounds
  {
    match op
    case AddOp(_, _) =>
    case UpdateOp(ob, env) => UpdateSaves(s, ob, env);
    case DeleteOp(_, _) =>
    case StartOp(obs, envs) => StartSaves(s, obs, envs);
    case StopOp(_, _) =>
    case ReloadOp =>
  }

  lemma UpdateSaves(s: State, ob: Outbound, env: Env)
    requires s.saved == s.outbounds && env.saves
    ensures Update(s, ob, env).saved == Update(s, ob, env).outbounds
  {
    if ob.id in s.outbounds {
      assert OldRouteDropped(s, ob.id).saved == OldRouteDropped(s, ob.id).outbounds;
    }
  }

  lemma {:induction false} SavedRunsStayCurrent(s: State, ops: seq<Op>)
    requires s.saved == s.outbounds && forall op :: op in ops ==> Writes(op)
    ensures Exec(s, ops).saved == Exec(s, ops).outbounds
    decreases |ops|
  {
    if ops != [] {
      SavedStaysCurrent(s, ops[0]);
      SavedRunsStayCurrent(Step(s, ops[0]), ops[1..]);
    }
  }

  /** Stopped and restarted after any served run, the gateway has the table it had, in any order of the reloaded map. */
  lemma RestartAfterRun(ops: seq<Op>, stopped: seq<Stored>, stops: bool, obs: seq<Stored>, envs: nat -> Env)
    requires Serves(ops)
    requires (forall op :: op in ops ==> Writes(op)) && forall id :: envs(id).tunnel
    requires Enumerates(obs, Exec(INITIAL, ops).outbounds)
    ensures var s := Exec(INITIAL, ops);
            StartAll(Reload(Stop(s, stopped, stops)), obs, envs).table == s.table
  {
    ServesExactly(ops);
    SavedRunsStayCurrent(INITIAL, ops);
    RestartRebuildsTable(Exec(INITIAL, ops), obs, envs);
  }

  lemma {:induction false} StartSaves(s: State, obs: seq<Stored>, envs: nat -> Env)
    requires s.saved == s.outbounds && forall id :: envs(id).saves
    ensures StartAll(s, obs, envs).saved == StartAll(s, obs, envs).outbounds
    decreases |obs|
  {
    if obs != [] {
      StartSaves(StartOne(s, obs[0], envs(obs[0].id)), obs[1..], envs);
    }
  }

  // ---- Live routes lost ----

  const TWIN_NET := IpNet([0, 0, 0, 0], 32, 32)
  const OPEN_TWIN: Stored := Outbound(1, true, Some("a"), "", 1, Some(TWIN_NET))
  const CLOSED_TWIN: Stored := Outbound(2, false, Some("b"), "", 2, Some(TWIN_NET))

  const GRANTED := Env(Some(""), true, true)

  ghost const TWINS: State := State(
    map[1 := OPEN_TWIN, 2 := CLOSED_TWIN], map[1 := OPEN_TWIN, 2 := CLOSED_TWIN], true,
    WithRoute(map[], Range(0, 0), OPEN_TWIN.DialerOf()))

  lemma TwinRange()
    ensures OPEN_TWIN.Range() == CLOSED_TWIN.Range() == Range(0, 0)
  {
    assert BigEndianValue(TWIN_NET.ip) == 0 by { ZerosAreZero(TWIN_NET.ip); }
    assert ShiftedOnes(0) == TWO_32 - 1 by { assert Pow2(0) == 1; }
  }

  /** Two successful additions lead to the twins. */
  lemma TwinsReached()
    ensures Step(Step(INITIAL, AddOp(OPEN_TWIN, GRANTED)), AddOp(CLOSED_TWIN, GRANTED)) == TWINS
  {
    TwinRange();
    assert OPEN_TWIN.(peerName := "") == OPEN_TWIN && CLOSED_TWIN.(peerName := "") == CLOSED_TWIN;
    var s1 := Add(INITIAL, OPEN_TWIN, GRANTED);
    assert s1 == State(map[1 := OPEN_TWIN], map[1 := OPEN_TWIN], true, TWINS.table);
    assert map[1 := OPEN_TWIN][2 := CLOSED_TWIN] == map[1 := OPEN_TWIN, 2 := CLOSED_TWIN];
  }

  lemma TwinClaimsOf()
    ensures ClaimsOf(TWINS.outbounds) ==
            map[1 := Claim(true, Range(0, 0), OPEN_TWIN.DialerOf()),
                2 := Claim(false, Range(0, 0), CLOSED_TWIN.DialerOf())]
  {
    TwinRange();
  }

  /** Deleting the closed twin succeeds and takes the open twin's route. */
  lemma ClosedTwinUnroutes()
    ensures Exact(TWINS) && Routed(TWINS, 1) && !Routed(Delete(TWINS, 2, true), 1)
  {
    TwinRange();
    TwinClaimsOf();
    TwinClaims(Range(0, 0), OPEN_TWIN.DialerOf(), CLOSED_TWIN.DialerOf());
    assert Has(TWINS.table, ClaimsOf(TWINS.outbounds)[1]);
    DeletionUnroutesIff(TWINS, 2, true, 1);
  }

  const WIDE: Stored := Outbound(1, true, Some("a"), "", 1, Some(IpNet([0, 0, 0, 0], 0, 32)))
  const NARROW: Stored := Outbound(2, true, Some("b"), "", 2, Some(TWIN_NET))

  ghost const OVERLAPPING: State := State(
    map[1 := WIDE, 2 := NARROW], map[1 := WIDE, 2 := NARROW], true,
    WithRoute(map[], Range(0, TWO_32 - 1), WIDE.DialerOf()))

  lemma OverlappingRanges()
    ensures WIDE.Range() == Range(0, TWO_32 - 1) && NARROW.Range() == Range(0, 0)
    ensures OVERLAPPING.table == map[0 := RouteItem(TWO_32 - 1, WIDE.DialerOf())]
    ensures !Accepts(OVERLAPPING.table, Range(0, 0))
  {
    TwinRange();
    assert BigEndianValue(WIDE.route.value.ip) == 0 by { ZerosAreZero(WIDE.route.value.ip); }
    assert Accepts(map[], Range(0, TWO_32 - 1));
    assert StoredRange(OVERLAPPING.table, 0) == Range(0, TWO_32 - 1);
    assert Meets(Range(0, TWO_32 - 1), Range(0, 0));
  }

  /** Two additions that both succeed: the second block lies inside the first, and its route is refused. */
  lemma OverlapReached()
    ensures Step(Step(INITIAL, AddOp(WIDE, GRANTED)), AddOp(NARROW, GRANTED)) == OVERLAPPING
  {
    OverlappingRanges();
    assert WIDE.(peerName := "") == WIDE && NARROW.(peerName := "") == NARROW;
    var s1 := Add(INITIAL, WIDE, GRANTED);
    assert s1 == State(map[1 := WIDE], map[1 := WIDE], true, OVERLAPPING.table);
    assert map[1 := WIDE][2 := NARROW] == map[1 := WIDE, 2 := NARROW];
  }

  /** Deleting the refused outbound then takes the route of the one that was served. */
  lemma RefusedDeletionUnroutes()
    ensures NARROW.open && Routed(OVERLAPPING, 1) && !Routed(OVERLAPPING, 2)
    ensures Delete(OVERLAPPING, 2, true).outbounds == map[1 := WIDE] && Delete(OVERLAPPING, 2, true).table == map[]
  {
    OverlappingRanges();
    assert Has(OVERLAPPING.table, ClaimOf(WIDE));
  }

  /** Of two open outbounds whose ranges overlap without being equal, Start serves whichever the map hands out first. */
  lemma FirstStartedWins(s: State, a: Stored, b: Stored, envs: nat -> Env)
    requires s.table == map[] && (s.running || forall id :: envs(id).tunnel)
    requires a.open && b.open && a.Range().lo <= a.Range().hi
    requires Meets(a.Range(), b.Range()) && a.Range() != b.Range()
    ensures StartAll(s, [a, b], envs).table == map[a.Range().lo := RouteItem(a.Range().hi, a.DialerOf())]
  {
    var t: Table := WithRoute(map[], a.Range(), a.DialerOf());
    assert Accepts(map[], a.Range());
    assert StoredRange(t, a.Range().lo) == a.Range();
    assert !Accepts(t, b.Range());
    var s1 := StartOne(s, a, envs(a.id));
    assert [a, b][1..] == [b] && [b][1..] == [];
    assert StartAll(s, [a, b], envs) == StartAll(s1, [b], envs) == StartOne(s1, b, envs(b.id));
  }

  // ---- Dialling ----

  ghost predicate Covers(ob: Stored, address: nat)
  {
    Contains(ob.route.value, address)
  }

  /** Every open outbound's route is a prefix that contains IPv4 addresses at all. */
  ghost predicate AllReach(obs: Outbounds)
  {
    forall id :: id in obs && obs[id].open ==> IsPrefix(obs[id].route.value) && ReachesV4(obs[id].route.value)
  }

  /** The dialer goes to the outbound's peer and presents its token, in eight bytes, as name and as password. */
  ghost predicate Presents(ob: Stored, d: Dialer)
  {
    d.peer == ob.peer.value && |d.userName| == 8 && |d.password| == 8 &&
    LittleEndianValue(d.userName) == ob.token && LittleEndianValue(d.password) == ob.token
  }

  lemma DialerPresents(ob: Stored, d: Dialer)
    ensures Presents(ob, d) <==> d == ob.DialerOf()
  {
    assert Pow256(8) == TWO_64 by { assert Pow256(4) == TWO_32; }
    LittleEndianRoundTrip(ob.token, 8);
    if Presents(ob, d) {
      LittleEndianValueInjective(d.userName, LittleEndian(ob.token, 8));
      LittleEndianValueInjective(d.password, LittleEndian(ob.token, 8));
    }
  }

  /** An open outbound whose peer and token d presents covers the address. */
  ghost predicate Owns(obs: Outbounds, address: nat, d: Dialer)
  {
    exists id :: id in obs && obs[id].open && Covers(obs[id], address) && Presents(obs[id], d)
  }

  /** A dialled IPv4 address reaches exactly the open outbound whose CIDR block contains it. */
  lemma DialReachesOwner(s: State, address: nat, d: Dialer)
    requires Exact(s) && address < TWO_32 && AllReach(s.outbounds)
    ensures Routes(s.table, address, d) <==> Owns(s.outbounds, address, d)
  {
    var obs, cs := s.outbounds, ClaimsOf(s.outbounds);
    forall id | id in obs && obs[id].open
      ensures Covers(obs[id], address) <==> cs[id].range.lo <= address <= cs[id].range.hi
      ensures Presents(obs[id], d) <==> cs[id].dialer == d
    {
      RangeFaithfulIff(obs[id].route.value);
      assert InRange(obs[id].route.value, address) <==> Contains(obs[id].route.value, address);
      DialerPresents(obs[id], d);
    }
    RoutesIffClaimed(s.table, cs, address, d);
    if id :| id in cs && cs[id].open && cs[id].dialer == d && cs[id].range.lo <= address <= cs[id].range.hi {
      assert Covers(obs[id], address);
    }
    if Owns(obs, address, d) {
      var id :| id in obs && obs[id].open && Covers(obs[id], address) && Presents(obs[id], d);
      assert cs[id].open && cs[id].dialer == d && cs[id].range.lo <= address <= cs[id].range.hi;
    }
  }

  // ---- From an empty manager ----

  /** After any run each entry carries the range, peer and token of an outbound that is open at that moment. */
  lemma EveryRouteHasAnOwner(ops: seq<Op>, k: nat)
    requires LegalRun(INITIAL, ops) && k in Exec(INITIAL, ops).table
    ensures var s := Exec(INITIAL, ops);
            exists id :: id in s.outbounds && s.outbounds[id].open &&
                         s.outbounds[id].Range() == StoredRange(s.table, k) &&
                         Presents(s.outbounds[id], s.table[k].dialer)
  {
    RunsAreSound(INITIAL, ops);
    var s := Exec(INITIAL, ops);
    var id :| id in s.outbounds && Justifies(ClaimsOf(s.outbounds)[id], k, s.table[k]);
    DialerPresents(s.outbounds[id], s.table[k].dialer);
  }

  /** After any served run of IPv4 outbounds an address is routed to d exactly when an open block of d contains it. */
  lemma EveryDialReachesItsOwner(ops: seq<Op>, address: nat, d: Dialer)
    requires Serves(ops)
    requires address < TWO_32 && AllReach(Exec(INITIAL, ops).outbounds)
    ensures var s := Exec(INITIAL, ops); Routes(s.table, address, d) <==> Owns(s.outbounds, address, d)
  {
    ServesExactly(ops);
    DialReachesOwner(Exec(INITIAL, ops), address, d);
  }

  // ---- What each operation does to the records ----

  /** The peer check passes and the stored text parses. */
  predicate Accepted(ob: Outbound, env: Env)
  {
    env.peerName.Some? && ob.peer.Some? && ob.route.Some?
  }

  /** A handler touches one record only, what it stores is the request with the checked peer name, and the database
      follows if the write succeeds. */
  ghost predicate RecordsRequest(before: State, after: State, ob: Outbound, env: Env)
  {
    (forall j :: j != ob.id ==>
       (j in before.outbounds <==> j in after.outbounds) &&
       (j in before.outbounds ==> before.outbounds[j] == after.outbounds[j])) &&
    (if Accepted(ob, env) then
       ob.id in after.outbounds && after.outbounds[ob.id] == ob.(peerName := env.peerName.value)
     else before.outbounds == after.outbounds) &&
    after.saved == if Accepted(ob, env) && env.saves then after.outbounds else before.saved
  }

  /** Adding starts the tunnel for an open outbound only. */
  lemma AddRecordsRequest(s: State, ob: Outbound, env: Env)
    ensures RecordsRequest(s, Add(s, ob, env), ob, env)
    ensures Add(s, ob, env).running <==> s.running || (Accepted(ob, env) && env.saves && ob.open && env.tunnel)
  {
  }

  /** Updating starts it for a closed one too. */
  lemma UpdateRecordsRequest(s: State, ob: Outbound, env: Env)
    ensures var s' := Update(s, ob, env);
            if ob.id == 0 || ob.id !in s.outbounds then s' == s
            else
              RecordsRequest(s, s', ob, env) &&
              (s'.running <==> s.running || (Accepted(ob, env) && env.saves && env.tunnel))
  {
    if ob.id in s.outbounds {
      assert OldRouteDropped(s, ob.id).outbounds == s.outbounds && OldRouteDropped(s, ob.id).saved == s.saved;
    }
  }

  /** A deleted outbound, open or closed, leaves the map, and the database if the write succeeds. */
  lemma DeleteRemovesRecord(s: State, id: nat, saves: bool)
    ensures var s' := Delete(s, id, saves);
            if id == 0 || id !in s.outbounds then s' == s
            else
              id !in s'.outbounds && s'.running == s.running &&
              s'.outbounds.Keys == s.outbounds.Keys - {id} &&
              (forall j :: j in s'.outbounds ==> s'.outbounds[j] == s.outbounds[j]) &&
              s'.saved == if saves then s'.outbounds else s.saved
  {
  }

  /** What was not written is as if it had not happened after a restart; otherwise the restart finds what was there. */
  lemma RestartForgetsUnsaved(s: State, ob: Outbound, env: Env, id: nat)
    ensures !env.saves ==> Reload(Add(s, ob, env)) == Reload(Update(s, ob, env)) == Reload(s)
    ensures Reload(Delete(s, id, false)) == Reload(s)
    ensures Reload(s).outbounds == s.saved && !Reload(s).running && Reload(s).table == map[]
  {
    if ob.id in s.outbounds {
      assert OldRouteDropped(s, ob.id).saved == s.saved;
    }
  }

  /** Stop keeps the records, and the tunnel only if it refuses to stop. */
  lemma StopKeepsRecords(s: State, obs: seq<Stored>, stops: bool)
    ensures var s' := Stop(s, obs, stops);
            s'.outbounds == s.outbounds && s'.saved == s.saved && (s'.running <==> s.running && !stops)
  {
  }

  /** The tunnel is up at the i-th outbound's turn, or comes up at it. */
  ghost predicate TunnelBy(s: State, obs: seq<Stored>, envs: nat -> Env, i: int)
  {
    s.running || exists j :: 0 <= j <= i && j < |obs| && obs[j].open && envs(obs[j].id).tunnel
  }

  lemma TunnelByTail(s: State, obs: seq<Stored>, envs: nat -> Env, i: int)
    requires obs != [] && 0 <= i
    ensures TunnelBy(s, obs, envs, i) <==> TunnelBy(StartOne(s, obs[0], envs(obs[0].id)), obs[1..], envs, i - 1)
  {
    var rest := obs[1..];
    assert forall j :: 0 <= j < |rest| ==> rest[j] == obs[j + 1];
    if j :| 0 < j <= i && j < |obs| && obs[j].open && envs(obs[j].id).tunnel {
      assert rest[j - 1] == obs[j];
    }
  }

  /** Start keeps every record but those of open outbounds whose turn comes before the tunnel is up: they are closed. */
  lemma {:induction false} StartShutsIff(s: State, obs: seq<Stored>, envs: nat -> Env, i: nat)
    requires Listed(obs, s.outbounds) && i < |obs|
    ensures var s' := StartAll(s, obs, envs);
            obs[i].id in s'.outbounds &&
            s'.outbounds[obs[i].id] == obs[i].(open := obs[i].open && TunnelBy(s, obs, envs, i))
    decreases |obs|
  {
    var s1, rest := StartOne(s, obs[0], envs(obs[0].id)), obs[1..];
    ListedTail(obs, s, envs(obs[0].id));
    TunnelByTail(s, obs, envs, i);
    if i > 0 {
      StartShutsIff(s1, rest, envs, i - 1);
    } else {
      StartLeavesOthers(s1, rest, envs, obs[0].id);
      assert TunnelBy(s, obs, envs, 0) <==> s.running || (obs[0].open && envs(obs[0].id).tunnel);
    }
  }

  lemma {:induction false} StartLeavesOthers(s: State, obs: seq<Stored>, envs: nat -> Env, id: nat)
    requires id in s.outbounds && forall i :: 0 <= i < |obs| ==> obs[i].id != id
    ensures id in StartAll(s, obs, envs).outbounds && StartAll(s, obs, envs).outbounds[id] == s.outbounds[id]
    decreases |obs|
  {
    if obs != [] {
      StartLeavesOthers(StartOne(s, obs[0], envs(obs[0].id)), obs[1..], envs, id);
    }
  }

  lemma {:induction false} UnsavedStart(s: State, obs: seq<Stored>, envs: nat -> Env)
    requires forall i :: 0 <= i < |obs| ==> !envs(obs[i].id).saves
    ensures StartAll(s, obs, envs).saved == s.saved
    decreases |obs|
  {
    if obs != [] {
      UnsavedStart(StartOne(s, obs[0], envs(obs[0].id)), obs[1..], envs);
    }
  }

  /** After Start the tunnel is up exactly if it was before or came up for an open outbound. */
  lemma {:induction false} StartRunsIff(s: State, obs: seq<Stored>, envs: nat -> Env)
    ensures StartAll(s, obs, envs).running <==> TunnelBy(s, obs, envs, |obs| - 1)
    decreases |obs|
  {
    if obs != [] {
      TunnelByTail(s, obs, envs, |obs| - 1);
      StartRunsIff(StartOne(s, obs[0], envs(obs[0].id)), obs[1..], envs);
    }
  }
}
