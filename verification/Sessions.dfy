// The per-peer session memory over interleaved connections (socks5/server.go, p2pengine/engine.go).

module Sessions {
  type Peer = string

  /** Where one handler stands; `Requesting` is reached with or without authentication. */
  datatype Stage = Negotiating(needAuth: bool) | Authenticating | Requesting | Ended

  /** What has gone wrong on the stream so far: a read, a write, or the peer's disconnect. */
  datatype Connection = Connection(peer: Peer, stage: Stage, readFailed: bool, writeFailed: bool, cut: bool)

  datatype Event = Accepted(peer: Peer) | Dropped(peer: Peer) | Dialled(peer: Peer)

  /** `known` holds the peers with a session entry; `history` is what happened so far. */
  datatype State = State(known: set<Peer>, connections: map<nat, Connection>, history: seq<Event>)

  const INITIAL: State := State({}, map[], [])

  /** How a stream operation turned out: an ignored error makes the handler go on, a logged one ends it. */
  datatype Io = Fine | IgnoredError | LoggedError

  /** The handler's stream operations in order, with their outcomes, and the peers' comings and goings. */
  datatype Action =
    | Connect(id: nat, peer: Peer)
    | Negotiate(id: nat, read: Io, write: Io)
    | Authenticate(id: nat, read: Io, tokenAccepted: bool, write: Io)
    | Request(id: nat, read: Io)
    | Disconnect(peer: Peer)

  /** Which earlier failures on a stream make the request's read fail. Nothing is asked of any other operation. */
  datatype Sticky = Sticky(afterRead: bool, afterWrite: bool, afterCut: bool)

  predicate MayRead(rules: Sticky, c: Connection) {
    !(rules.afterRead && c.readFailed) && !(rules.afterWrite && c.writeFailed) && !(rules.afterCut && c.cut)
  }

  function AfterRead(c: Connection, io: Io): Connection
    requires io != Fine
  {
    c.(stage := if io == IgnoredError then Requesting else Ended, readFailed := true)
  }

  function AfterWrite(c: Connection, next: Stage, io: Io): Connection {
    match io
    case Fine => c.(stage := next)
    case IgnoredError => c.(stage := Requesting, writeFailed := true)
    case LoggedError => c.(stage := Ended, writeFailed := true)
  }

  predicate Enabled(rules: Sticky, s: State, a: Action) {
    match a
    case Connect(id, _) => id !in s.connections
    case Negotiate(id, _, _) => id in s.connections && s.connections[id].stage.Negotiating?
    case Authenticate(id, _, _, _) => id in s.connections && s.connections[id].stage == Authenticating
    case Request(id, read) =>
      id in s.connections && s.connections[id].stage == Requesting &&
      (read == Fine ==> MayRead(rules, s.connections[id]))
    case Disconnect(_) => true
  }

  function Cut(cs: map<nat, Connection>, peer: Peer): map<nat, Connection> {
    map id | id in cs :: if cs[id].peer == peer then cs[id].(cut := true) else cs[id]
  }

  function Step(rules: Sticky, s: State, a: Action): State
    requires Enabled(rules, s, a)
  {
    match a
    case Connect(id, peer) =>
      s.(connections := s.connections[id := Connection(peer, Negotiating(peer !in s.known), false, false, false)])
    case Negotiate(id, read, write) =>
      var c := s.connections[id];
      var c' := if read != Fine then AfterRead(c, read)
                else AfterWrite(c, if c.stage.needAuth then Authenticating else Requesting, write);
      s.(connections := s.connections[id := c'])
    case Authenticate(id, read, tokenAccepted, write) =>
      var c := s.connections[id];
      if read != Fine then s.(connections := s.connections[id := AfterRead(c, read)])
      else if !tokenAccepted then s.(connections := s.connections[id := AfterWrite(c, Ended, write)])
      else
        var c' := AfterWrite(c, Requesting, write);
        State(s.known + {c.peer}, s.connections[id := c'], s.history + [Event.Accepted(c.peer)])
    case Request(id, read) =>
      var c := s.connections[id];
      var s1 := s.(connections := s.connections[id := c.(stage := Ended)]);
      if read != Fine then s1 else s1.(history := s.history + [Dialled(c.peer)])
    case Disconnect(peer) =>
      State(s.known - {peer}, Cut(s.connections, peer), s.history + [Dropped(peer)])
  }

  /** A token from the peer was accepted, and the peer has not disconnected since. */
  ghost predicate Authorised(h: seq<Event>, peer: Peer) {
    h != [] &&
    (h[|h| - 1] == Event.Accepted(peer) || (h[|h| - 1] != Dropped(peer) && Authorised(h[..|h| - 1], peer)))
  }

  /** Every dial happened while its peer was authorised. */
  ghost predicate OnlyAuthorisedDials(h: seq<Event>) {
    forall k :: 0 <= k < |h| && h[k].Dialled? ==> Authorised(h[..k], h[k].peer)
  }

  const ALL_STICKY := Sticky(true, true, true)

  /** A connection that can get its request through without being asked for a token. */
  ghost predicate Trusting(c: Connection) {
    MayRead(ALL_STICKY, c) && (c.stage == Requesting || c.stage == Negotiating(false))
  }

  /** The session memory holds exactly the authorised peers. */
  ghost predicate Remembers(s: State) {
    forall p :: p in s.known <==> Authorised(s.history, p)
  }

  ghost predicate Inv(s: State) {
    OnlyAuthorisedDials(s.history) && Remembers(s) &&
    (forall id :: id in s.connections && Trusting(s.connections[id]) ==> Authorised(s.history, s.connections[id].peer))
  }

  /** The recursion above means what it says. */
  lemma {:induction false} AuthorisedMeans(h: seq<Event>, peer: Peer)
    ensures Authorised(h, peer) <==>
            exists i :: 0 <= i < |h| && h[i] == Event.Accepted(peer) &&
                        forall j :: i < j < |h| ==> h[j] != Dropped(peer)
  {
    if h != [] {
      var g, n := h[..|h| - 1], |h| - 1;
      AuthorisedMeans(g, peer);
      assert forall j :: 0 <= j < n ==> g[j] == h[j];
      if h[n] == Event.Accepted(peer) {
      } else if Authorised(h, peer) {
        var i :| 0 <= i < |g| && g[i] == Event.Accepted(peer) && forall j :: i < j < |g| ==> g[j] != Dropped(peer);
        assert h[i] == Event.Accepted(peer);
      }
    }
  }

  lemma Appended(h: seq<Event>, e: Event)
    ensures forall p :: Authorised(h + [e], p) <==> e == Event.Accepted(p) || (e != Dropped(p) && Authorised(h, p))
    ensures OnlyAuthorisedDials(h) && (e.Dialled? ==> Authorised(h, e.peer)) ==> OnlyAuthorisedDials(h + [e])
  {
    assert (h + [e])[..|h|] == h;
    assert forall k :: 0 <= k < |h| ==> (h + [e])[..k] == h[..k];
  }

  /** Whatever the stream still gives after a failure, the session memory is right. */
  lemma StepRemembers(rules: Sticky, s: State, a: Action)
    requires Remembers(s) && Enabled(rules, s, a)
    ensures Remembers(Step(rules, s, a))
  {
    match a
    case Connect(_, _) =>
    case Negotiate(_, _, _) =>
    case Authenticate(id, _, _, _) => Appended(s.history, Event.Accepted(s.connections[id].peer));
    case Request(id, _) => Appended(s.history, Dialled(s.connections[id].peer));
    case Disconnect(peer) => Appended(s.history, Dropped(peer));
  }

  lemma StepKeepsInv(s: State, a: Action)
    requires Inv(s) && Enabled(ALL_STICKY, s, a)
    ensures Inv(Step(ALL_STICKY, s, a))
  {
    match a
    case Connect(_, _) =>
    case Negotiate(_, _, _) =>
    case Authenticate(id, _, _, _) => Appended(s.history, Event.Accepted(s.connections[id].peer));
    case Request(id, _) => Appended(s.history, Dialled(s.connections[id].peer));
    case Disconnect(peer) => Appended(s.history, Dropped(peer));
  }

  ghost predicate IsRun(rules: Sticky, s: State, actions: seq<Action>)
    decreases |actions|
  {
    actions == [] || (Enabled(rules, s, actions[0]) && IsRun(rules, Step(rules, s, actions[0]), actions[1..]))
  }

  ghost function Exec(rules: Sticky, s: State, actions: seq<Action>): State
    requires IsRun(rules, s, actions)
    decreases |actions|
  {
    if actions == [] then s else Exec(rules, Step(rules, s, actions[0]), actions[1..])
  }

  ghost function History(rules: Sticky, actions: seq<Action>): seq<Event>
    requires IsRun(rules, INITIAL, actions)
  {
    Exec(rules, INITIAL, actions).history
  }

  lemma {:induction false} RunsKeepInv(s: State, actions: seq<Action>)
    requires Inv(s) && IsRun(ALL_STICKY, s, actions)
    ensures Inv(Exec(ALL_STICKY, s, actions))
    decreases |actions|
  {
    if actions != [] {
      StepKeepsInv(s, actions[0]);
      RunsKeepInv(Step(ALL_STICKY, s, actions[0]), actions[1..]);
    }
  }

  lemma {:induction false} RunsRemember(rules: Sticky, s: State, actions: seq<Action>)
    requires Remembers(s) && IsRun(rules, s, actions)
    ensures Remembers(Exec(rules, s, actions))
    decreases |actions|
  {
    if actions != [] {
      StepRemembers(rules, s, actions[0]);
      RunsRemember(rules, Step(rules, s, actions[0]), actions[1..]);
    }
  }

  /** On any stream a new connection is asked for a token exactly when its peer has no accepted one left. */
  lemma TokenAskedIff(rules: Sticky, actions: seq<Action>, id: nat, peer: Peer)
    requires IsRun(rules, INITIAL, actions) && id !in Exec(rules, INITIAL, actions).connections
    ensures var s := Exec(rules, INITIAL, actions);
            Step(rules, s, Connect(id, peer)).connections[id].stage == Negotiating(true) <==>
            !exists i :: 0 <= i < |s.history| && s.history[i] == Event.Accepted(peer) &&
                         forall j :: i < j < |s.history| ==> s.history[j] != Dropped(peer)
  {
    RunsRemember(rules, INITIAL, actions);
    AuthorisedMeans(Exec(rules, INITIAL, actions).history, peer);
  }

  // ---- What a connection goes through ----

  /** A step leaves a connection's peer alone, and never puts it back to negotiating. */
  lemma StepKeepsNegotiating(rules: Sticky, s: State, a: Action, id: nat)
    requires Enabled(rules, s, a) && id in s.connections
    ensures var (c, s') := (s.connections[id], Step(rules, s, a));
            id in s'.connections && s'.connections[id].peer == c.peer &&
            (s'.connections[id].stage.Negotiating? ==> s'.connections[id].stage == c.stage)
  {
  }

  lemma {:induction false} RunKeepsNegotiating(rules: Sticky, s: State, actions: seq<Action>, id: nat)
    requires IsRun(rules, s, actions) && id in s.connections
    ensures var (c, s') := (s.connections[id], Exec(rules, s, actions));
            id in s'.connections && s'.connections[id].peer == c.peer &&
            (s'.connections[id].stage.Negotiating? ==> s'.connections[id].stage == c.stage)
    decreases |actions|
  {
    if actions != [] {
      StepKeepsNegotiating(rules, s, actions[0], id);
      RunKeepsNegotiating(rules, Step(rules, s, actions[0]), actions[1..], id);
    }
  }

  /** On any stream, and whatever happens in between: a negotiation that goes through asks for a token exactly when the
      peer had no accepted one left when the connection came, and otherwise goes straight to the request. */
  lemma NegotiationAsksIff(rules: Sticky, before: seq<Action>, id: nat, peer: Peer, between: seq<Action>)
    requires IsRun(rules, INITIAL, before)
    requires var s := Exec(rules, INITIAL, before);
             id !in s.connections && IsRun(rules, Step(rules, s, Connect(id, peer)), between) &&
             Enabled(rules, Exec(rules, Step(rules, s, Connect(id, peer)), between), Negotiate(id, Fine, Fine))
    ensures var s := Exec(rules, INITIAL, before);
            var t := Exec(rules, Step(rules, s, Connect(id, peer)), between);
            var c := Step(rules, t, Negotiate(id, Fine, Fine)).connections[id];
            c.peer == peer && c.stage == if Authorised(s.history, peer) then Requesting else Authenticating
  {
    RunsRemember(rules, INITIAL, before);
    var s := Exec(rules, INITIAL, before);
    RunKeepsNegotiating(rules, Step(rules, s, Connect(id, peer)), between, id);
  }

  /** An answered request for a token: the peer is remembered and may go on exactly if the token is accepted. */
  lemma TokenDecides(rules: Sticky, s: State, id: nat, accepted: bool)
    requires Enabled(rules, s, Authenticate(id, Fine, accepted, Fine))
    ensures var (peer, s') := (s.connections[id].peer, Step(rules, s, Authenticate(id, Fine, accepted, Fine)));
            s'.connections[id].stage == (if accepted then Requesting else Ended) &&
            s'.history == (if accepted then s.history + [Event.Accepted(peer)] else s.history) &&
            s'.known == if accepted then s.known + {peer} else s.known
  {
  }

  /** A peer whose token is still accepted is served without sending it again. */
  lemma KnownPeerIsServed(rules: Sticky, before: seq<Action>, id: nat, peer: Peer) returns (run: seq<Action>)
    requires IsRun(rules, INITIAL, before)
    requires var s := Exec(rules, INITIAL, before); id !in s.connections && Authorised(s.history, peer)
    ensures var s := Exec(rules, INITIAL, before);
            IsRun(rules, s, run) && Exec(rules, s, run).history == s.history + [Dialled(peer)] &&
            forall a :: a in run ==> !a.Authenticate?
  {
    var s := Exec(rules, INITIAL, before);
    var connect, negotiate, request := Connect(id, peer), Negotiate(id, Fine, Fine), Request(id, Fine);
    RunsRemember(rules, INITIAL, before);
    var s1 := Step(rules, s, connect);
    var s2 := Step(rules, s1, negotiate);
    RunCons(rules, s2, request, []);
    RunCons(rules, s1, negotiate, [request]);
    RunCons(rules, s, connect, [negotiate] + [request]);
    run := [connect] + ([negotiate] + [request]);
  }

  /** The connection an action is about, and whether it meets a logged error. */
  predicate Logs(a: Action, id: nat)
  {
    match a
    case Negotiate(i, read, write) => i == id && (read == LoggedError || (read == Fine && write == LoggedError))
    case Authenticate(i, read, _, write) => i == id && (read == LoggedError || (read == Fine && write == LoggedError))
    case Request(i, _) => i == id
    case _ => false
  }

  /** It meets an error that the handler swallows. */
  predicate Swallows(a: Action, id: nat)
  {
    match a
    case Negotiate(i, read, write) => i == id && (read == IgnoredError || (read == Fine && write == IgnoredError))
    case Authenticate(i, read, _, write) => i == id && (read == IgnoredError || (read == Fine && write == IgnoredError))
    case _ => false
  }

  /** A swallowed error lets the handler go on to the request, a refused token included. */
  lemma SwallowedErrorGoesOn(rules: Sticky, s: State, a: Action, id: nat)
    requires Swallows(a, id) && Enabled(rules, s, a)
    ensures Step(rules, s, a).connections[id].stage == Requesting
    ensures a.Negotiate? || a.read != Fine ==> Step(rules, s, a).known == s.known
  {
  }

  predicate ActsOn(a: Action, id: nat)
  {
    match a
    case Connect(i, _) => i == id
    case Negotiate(i, _, _) => i == id
    case Authenticate(i, _, _, _) => i == id
    case Request(i, _) => i == id
    case Disconnect(_) => false
  }

  /** A handler's actions leave the other connections as they were, and a disconnect cuts those of its peer only. */
  lemma OthersUntouched(rules: Sticky, s: State, a: Action, id: nat)
    requires Enabled(rules, s, a) && id in s.connections && !ActsOn(a, id)
    ensures var c, s' := s.connections[id], Step(rules, s, a);
            id in s'.connections &&
            s'.connections[id] == if a == Disconnect(c.peer) then c.(cut := true) else c
  {
  }

  lemma {:induction false} EndedStays(rules: Sticky, s: State, actions: seq<Action>, id: nat)
    requires IsRun(rules, s, actions) && id in s.connections && s.connections[id].stage == Ended
    ensures forall a :: a in actions ==> !ActsOn(a, id)
    decreases |actions|
  {
    if actions != [] {
      assert actions == [actions[0]] + actions[1..];
      EndedStays(rules, Step(rules, s, actions[0]), actions[1..], id);
    }
  }

  /** After a logged error, or its request, a handler does nothing more. */
  lemma LoggedErrorEnds(rules: Sticky, s: State, a: Action, id: nat, rest: seq<Action>)
    requires Logs(a, id) && Enabled(rules, s, a) && IsRun(rules, Step(rules, s, a), rest)
    ensures forall b :: b in rest ==> !ActsOn(b, id)
  {
    EndedStays(rules, Step(rules, s, a), rest, id);
  }

  /** However connections interleave and whatever errors are swallowed, no peer is served without a token. */
  lemma DialsFollowAcceptedTokens(actions: seq<Action>, k: nat)
    requires IsRun(ALL_STICKY, INITIAL, actions)
    requires var h := History(ALL_STICKY, actions); k < |h| && h[k].Dialled?
    ensures var h := History(ALL_STICKY, actions);
            exists i :: 0 <= i < k && h[i] == Event.Accepted(h[k].peer) &&
                        forall j :: i < j < k ==> h[j] != Dropped(h[k].peer)
  {
    RunsKeepInv(INITIAL, actions);
    var h := History(ALL_STICKY, actions);
    AuthorisedMeans(h[..k], h[k].peer);
    var i :| 0 <= i < k && h[..k][i] == Event.Accepted(h[k].peer) &&
             forall j :: i < j < k ==> h[..k][j] != Dropped(h[k].peer);
    assert forall j :: i < j < k ==> h[j] == h[..k][j];
  }

  lemma RunCons(rules: Sticky, s: State, a: Action, rest: seq<Action>)
    requires Enabled(rules, s, a) && IsRun(rules, Step(rules, s, a), rest)
    ensures IsRun(rules, s, [a] + rest) && Exec(rules, s, [a] + rest) == Exec(rules, Step(rules, s, a), rest)
  {
    assert ([a] + rest)[1..] == rest;
  }

  /** One handler goes on to its request although its peer has gone. */
  lemma UnnoticedDisconnectDials(rules: Sticky) returns (run: seq<Action>)
    requires !rules.afterCut
    ensures IsRun(rules, INITIAL, run) && !OnlyAuthorisedDials(History(rules, run))
  {
    var connect, negotiate := Connect(0, "p"), Negotiate(0, Fine, Fine);
    var authenticate, disconnect, request := Authenticate(0, Fine, true, Fine), Disconnect("p"), Request(0, Fine);
    var s1 := Step(rules, INITIAL, connect);
    var s2 := Step(rules, s1, negotiate);
    var s3 := Step(rules, s2, authenticate);
    RunCons(rules, Step(rules, s3, disconnect), request, []);
    RunCons(rules, s3, disconnect, [request]);
    RunCons(rules, s2, authenticate, [disconnect] + [request]);
    RunCons(rules, s1, negotiate, [authenticate] + ([disconnect] + [request]));
    run := [connect] + ([negotiate] + ([authenticate] + ([disconnect] + [request])));
    RunCons(rules, INITIAL, connect, run[1..]);
    LastDials(History(rules, run), [Event.Accepted("p"), Dropped("p")], "p");
  }

  /** One handler goes on to its request after a swallowed read or write error, without having seen a token. */
  lemma UnnoticedErrorDials(rules: Sticky) returns (run: seq<Action>)
    requires !rules.afterRead || !rules.afterWrite
    ensures IsRun(rules, INITIAL, run) && !OnlyAuthorisedDials(History(rules, run))
  {
    var connect, request := Connect(0, "p"), Request(0, Fine);
    var negotiate := if rules.afterRead then Negotiate(0, Fine, IgnoredError) else Negotiate(0, IgnoredError, Fine);
    var s1 := Step(rules, INITIAL, connect);
    RunCons(rules, Step(rules, s1, negotiate), request, []);
    RunCons(rules, s1, negotiate, [request]);
    run := [connect] + ([negotiate] + [request]);
    RunCons(rules, INITIAL, connect, run[1..]);
    LastDials(History(rules, run), [], "p");
  }

  lemma LastDials(history: seq<Event>, h: seq<Event>, peer: Peer)
    requires history == h + [Dialled(peer)] && !Authorised(h, peer)
    ensures !OnlyAuthorisedDials(history)
  {
    assert history[..|h|] == h && history[|h|].Dialled?;
  }

  /** All that is needed of the stream, and each part of it: a request is not read after a failed read, after a failed
      write, or after the peer's disconnect. */
  lemma DialsAuthorisedIff(rules: Sticky)
    ensures (forall actions :: IsRun(rules, INITIAL, actions) ==> OnlyAuthorisedDials(History(rules, actions))) <==>
            rules == ALL_STICKY
  {
    if rules == ALL_STICKY {
      forall actions | IsRun(rules, INITIAL, actions)
        ensures OnlyAuthorisedDials(History(rules, actions))
      {
        RunsKeepInv(INITIAL, actions);
      }
    } else if rules.afterRead && rules.afterWrite {
      var run := UnnoticedDisconnectDials(rules);
    } else {
      var run := UnnoticedErrorDials(rules);
    }
  }
}
