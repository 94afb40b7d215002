// Agreement and progress of the handshake over every run.

module HandshakeProofs {
  import opened Words
  import opened Cidr
  import opened SocksAddress
  import opened SocksCodec
  import opened Handshake

  lemma DeliveryKeepsWhole(p: Pipe, n: nat)
    requires n <= |p.flight|
    ensures Whole(Delivered(p, n)) == Whole(p)
  {
  }

  lemma SentWhole(p: Pipe, b: seq<byte>)
    ensures Whole(Sent(p, b)) == Whole(p) + b
  {
  }

  lemma DeliveryKeepsInv(cfg: Setup, st: State, st': State, ph: Phase)
    requires At(cfg, ph, st)
    requires st'.client == st.client && st'.server == st.server
    requires Whole(st'.up) == Whole(st.up) && st'.up.shut == st.up.shut
    requires Whole(st'.down) == Whole(st.down) && st'.down.shut == st.down.shut
    ensures At(cfg, ph, st')
  {
  }

  /** Sending the request, or giving up on a target that does not parse. */
  lemma RequestKeepsInv(cfg: Setup, st: State)
    requires IsSetup(cfg) && Authorised(cfg) && st.server == AwaitRequest
    requires Whole(st.up) == [] && Whole(st.down) == [] && !st.up.shut && !st.down.shut
    ensures Inv(cfg, SendRequest(cfg, st))
  {
    var st' := SendRequest(cfg, st);
    if cfg.target == None {
      assert At(cfg, Abandoned, st');
    } else {
      SentWhole(st.up, Framed(Message(Command(cfg.network), cfg.target.value)));
      assert At(cfg, Requested, st');
    }
  }

  lemma ClientKeepsInv(cfg: Setup, st: State, ph: Phase)
    requires IsSetup(cfg) && At(cfg, ph, st) && ClientStep(cfg, st).Some?
    ensures Inv(cfg, ClientStep(cfg, st).value)
  {
    match ph
    case Fresh =>
      SentWhole(st.up, Negotiation([METHOD_PASSWORD]));
      assert At(cfg, Greeted, ClientStep(cfg, st).value);
    case AuthAsked => MethodKeepsInv(cfg, st, ph);
    case AuthWaived => MethodKeepsInv(cfg, st, ph);
    case Accepted => StatusKeepsInv(cfg, st, ph);
    case Rejected => StatusKeepsInv(cfg, st, ph);
    case Granted => ReplyKeepsInv(cfg, st, ph);
    case Refused(_) => ReplyKeepsInv(cfg, st, ph);
    case Dropped => ReplyKeepsInv(cfg, st, ph);
    case Greeted =>
    case PasswordSent =>
    case Requested =>
    case Abandoned =>
    case Open =>
    case Stopped =>
  }

  lemma MethodKeepsInv(cfg: Setup, st: State, ph: Phase)
    requires IsSetup(cfg) && At(cfg, ph, st) && (ph.AuthAsked? || ph.AuthWaived?) && ClientStep(cfg, st).Some?
    ensures Inv(cfg, ClientStep(cfg, st).value)
  {
    match ph
    case AuthAsked =>
      PairRead(VERSION, st.down, METHOD_PASSWORD);
      SentWhole(st.up, UserPass(TokenCredentials(cfg.token)));
      assert At(cfg, PasswordSent, ClientStep(cfg, st).value);
    case AuthWaived =>
      PairRead(VERSION, st.down, METHOD_NONE);
      RequestKeepsInv(cfg, st.(down := Pipe([], [], st.down.shut)));
  }

  lemma StatusKeepsInv(cfg: Setup, st: State, ph: Phase)
    requires IsSetup(cfg) && At(cfg, ph, st) && (ph.Accepted? || ph.Rejected?) && ClientStep(cfg, st).Some?
    ensures Inv(cfg, ClientStep(cfg, st).value)
  {
    match ph
    case Accepted =>
      PairRead(AUTH_VERSION, st.down, 0);
      RequestKeepsInv(cfg, st.(down := Pipe([], [], st.down.shut)));
    case Rejected =>
      PairRead(AUTH_VERSION, st.down, 1);
      assert At(cfg, Stopped, ClientStep(cfg, st).value);
  }

  lemma ReplyKeepsInv(cfg: Setup, st: State, ph: Phase)
    requires IsSetup(cfg) && At(cfg, ph, st) && (ph.Granted? || ph.Refused? || ph.Dropped?)
    requires ClientStep(cfg, st).Some?
    ensures Inv(cfg, ClientStep(cfg, st).value)
  {
    var st' := ClientStep(cfg, st).value;
    match ph
    case Granted =>
      MessageRead(st.down, Message(REP_SUCCESS, cfg.dial.value));
      assert At(cfg, Open, st');
    case Refused(m) =>
      MessageRead(st.down, m);
      assert At(cfg, Stopped, st');
    case Dropped => assert At(cfg, Stopped, st');
  }

  lemma ServerKeepsInv(cfg: Setup, st: State, ph: Phase)
    requires IsSetup(cfg) && At(cfg, ph, st) && ServerStep(cfg, st).Some?
    ensures Inv(cfg, ServerStep(cfg, st).value)
  {
    var st' := ServerStep(cfg, st).value;
    match ph
    case Greeted =>
      HelloRead(st.up);
      if cfg.needAuth {
        SentWhole(st.down, Pair(VERSION, METHOD_PASSWORD));
        assert At(cfg, AuthAsked, st');
      } else {
        SentWhole(st.down, Pair(VERSION, METHOD_NONE));
        assert At(cfg, AuthWaived, st');
      }
    case PasswordSent =>
      PasswordRead(st.up, TokenCredentials(cfg.token));
      TokenArrives(cfg);
      if cfg.accepts(cfg.token) {
        SentWhole(st.down, Pair(AUTH_VERSION, 0));
        assert At(cfg, Accepted, st');
      } else {
        SentWhole(st.down, Pair(AUTH_VERSION, 1));
        assert At(cfg, Rejected, st');
      }
    case Requested => RequestAnswered(cfg, st);
    case Abandoned => assert At(cfg, Stopped, st');
    case Fresh =>
    case AuthAsked =>
    case AuthWaived =>
    case Accepted =>
    case Rejected =>
    case Granted =>
    case Refused(_) =>
    case Dropped =>
    case Open =>
    case Stopped =>
  }

  lemma RequestAnswered(cfg: Setup, st: State)
    requires IsSetup(cfg) && At(cfg, Requested, st) && ServerStep(cfg, st).Some?
    ensures Inv(cfg, ServerStep(cfg, st).value)
  {
    var st' := ServerStep(cfg, st).value;
    var req := Message(Command(cfg.network), cfg.target.value);
    if req.address.host == Name([]) {
      EmptyNameRead(st.up, req);
      assert At(cfg, Dropped, st');
    } else {
      MessageRead(st.up, req);
      if cfg.dial == None {
        var m := Refusal(req.address);
        RefusalIs(req.address);
        SentWhole(st.down, Framed(m));
        assert At(cfg, Refused(m), st');
      } else {
        SentWhole(st.down, Framed(Message(REP_SUCCESS, cfg.dial.value)));
        assert At(cfg, Granted, st');
      }
    }
  }

  lemma StepKeepsInv(cfg: Setup, st: State, a: Action)
    requires IsSetup(cfg) && Inv(cfg, st) && Do(cfg, st, a).Some?
    ensures Inv(cfg, Do(cfg, st, a).value)
  {
    var ph :| At(cfg, ph, st);
    match a
    case DeliverUp(n) =>
      DeliveryKeepsWhole(st.up, n);
      DeliveryKeepsInv(cfg, st, Do(cfg, st, a).value, ph);
    case DeliverDown(n) =>
      DeliveryKeepsWhole(st.down, n);
      DeliveryKeepsInv(cfg, st, Do(cfg, st, a).value, ph);
    case ClientMoves => ClientKeepsInv(cfg, st, ph);
    case ServerMoves => ServerKeepsInv(cfg, st, ph);
  }

  lemma {:induction false} ReachableInv(cfg: Setup, st: State, actions: seq<Action>, end: State)
    requires IsSetup(cfg) && Inv(cfg, st) && Reaches(cfg, st, actions, end)
    ensures Inv(cfg, end)
    decreases |actions|
  {
    if actions != [] {
      StepKeepsInv(cfg, st, actions[0]);
      ReachableInv(cfg, Do(cfg, st, actions[0]).value, actions[1..], end);
    }
  }

  // ---- Progress ----

  predicate ServersTurn(ph: Phase)
  {
    ph.Greeted? || ph.PasswordSent? || ph.Requested? || ph.Abandoned?
  }

  lemma ServerGoesOn(cfg: Setup, st: State, ph: Phase)
    requires IsSetup(cfg) && At(cfg, ph, st) && ServersTurn(ph) && st.up.flight == []
    ensures ServerStep(cfg, st).Some?
  {
    match ph
    case Greeted => HelloRead(st.up);
    case PasswordSent => PasswordRead(st.up, TokenCredentials(cfg.token));
    case Requested =>
      var req := Message(Command(cfg.network), cfg.target.value);
      if req.address.host == Name([]) {
        EmptyNameRead(st.up, req);
      } else {
        MessageRead(st.up, req);
      }
    case _ =>
  }

  lemma ClientGoesOn(cfg: Setup, st: State, ph: Phase)
    requires IsSetup(cfg) && At(cfg, ph, st) && !Over(st) && !ServersTurn(ph) && st.down.flight == []
    ensures ClientStep(cfg, st).Some?
  {
    match ph
    case AuthAsked => PairRead(VERSION, st.down, METHOD_PASSWORD);
    case AuthWaived => PairRead(VERSION, st.down, METHOD_NONE);
    case Accepted => PairRead(AUTH_VERSION, st.down, 0);
    case Rejected => PairRead(AUTH_VERSION, st.down, 1);
    case Granted => MessageRead(st.down, Message(REP_SUCCESS, cfg.dial.value));
    case Refused(m) => MessageRead(st.down, m);
    case _ =>
  }

  /** No reachable state short of the end is stuck, however the bytes were chunked. */
  lemma NeverStuck(cfg: Setup, st: State)
    requires IsSetup(cfg) && Inv(cfg, st) && !Over(st)
    ensures exists a :: Do(cfg, st, a).Some?
  {
    var ph :| At(cfg, ph, st);
    if st.up.flight != [] {
      assert Do(cfg, st, DeliverUp(1)).Some?;
    } else if st.down.flight != [] {
      assert Do(cfg, st, DeliverDown(1)).Some?;
    } else {
      var a := if ServersTurn(ph) then ServerMoves else ClientMoves;
      if ServersTurn(ph) {
        ServerGoesOn(cfg, st, ph);
      } else {
        ClientGoesOn(cfg, st, ph);
      }
      assert Do(cfg, st, a).Some?;
    }
  }

  function ClientRank(c: Client): nat {
    match c
    case Hello => 4
    case AwaitMethod => 3
    case AwaitStatus => 2
    case AwaitReply => 1
    case Transfer(_) => 0
    case Failed => 0
  }

  function ServerRank(s: Server): nat {
    match s
    case AwaitHello => 3
    case AwaitPassword => 2
    case AwaitRequest => 1
    case Serving(_, _, _) => 0
    case Finished => 0
  }

  /** More than any handshake message is long. */
  const MESSAGE_LIMIT: nat := 300

  function Rank(st: State): nat {
    MESSAGE_LIMIT * (ClientRank(st.client) + ServerRank(st.server)) + |st.up.flight| + |st.down.flight|
  }

  lemma ShortEncoding(a: Address)
    requires (a.host.Ip? ==> |a.host.bytes| <= 255) && (a.host.Name? ==> |a.host.name| <= 255)
    ensures |Encode(a)| <= 259
  {
  }

  lemma ClientRankFalls(cfg: Setup, st: State)
    requires IsSetup(cfg) && ClientStep(cfg, st).Some?
    ensures Rank(ClientStep(cfg, st).value) < Rank(st)
  {
    if cfg.target.Some? {
      ShortEncoding(cfg.target.value);
    }
    assert |UserPass(TokenCredentials(cfg.token))| == 19;
  }

  lemma AnswerRankFalls(cfg: Setup, st: State, req: Message)
    requires IsSetup(cfg) && st.server == AwaitRequest
    ensures Rank(Answer(cfg, st, req)) < Rank(st)
  {
  }

  lemma ServerRankFalls(cfg: Setup, st: State)
    requires IsSetup(cfg) && ServerStep(cfg, st).Some?
    ensures Rank(ServerStep(cfg, st).value) < Rank(st)
  {
    if st.server == AwaitRequest {
      var r := ReadOff(st.up, ParseMessage(st.up.arrived));
      if r.Got? {
        AnswerRankFalls(cfg, st.(up := r.pipe), r.value);
      }
    }
  }

  lemma RankFalls(cfg: Setup, st: State, a: Action)
    requires IsSetup(cfg) && Do(cfg, st, a).Some?
    ensures Rank(Do(cfg, st, a).value) < Rank(st)
  {
    match a
    case DeliverUp(_) =>
    case DeliverDown(_) =>
    case ClientMoves => ClientRankFalls(cfg, st);
    case ServerMoves => ServerRankFalls(cfg, st);
  }

  /** A run has at most as many actions as the rank it uses up, so none goes on for ever. */
  lemma {:induction false} RunsEnd(cfg: Setup, st: State, actions: seq<Action>, end: State)
    requires IsSetup(cfg) && Reaches(cfg, st, actions, end)
    ensures |actions| + Rank(end) <= Rank(st)
    decreases |actions|
  {
    if actions != [] {
      RankFalls(cfg, st, actions[0]);
      RunsEnd(cfg, Do(cfg, st, actions[0]).value, actions[1..], end);
    }
  }

  // ---- Agreement ----

  /** A side in data transfer is never paired with a side that gave up. */
  lemma NeverSplit(cfg: Setup, st: State)
    requires IsSetup(cfg) && Inv(cfg, st)
    ensures st.client.Transfer? ==> st.server.Serving?
    ensures st.server.Serving? ==> st.client.Transfer? || st.client.AwaitReply?
    ensures st.server == Finished ==> !st.client.Transfer?
  {
  }

  /** Both sides in transfer hold the same command and target, and no handshake byte is left over. */
  lemma TransferAgrees(cfg: Setup, st: State)
    requires IsSetup(cfg) && Inv(cfg, st) && st.client.Transfer?
    ensures cfg.target.Some? && st.server.Serving?
    ensures st.server.cmd == Command(cfg.network) && st.server.address == cfg.target.value
    ensures st.up.arrived + st.up.flight == [] && st.down.arrived + st.down.flight == []
    ensures cfg.needAuth ==> cfg.accepts(cfg.token)
  {
  }

  /** The client frames packets only for "udp" itself, the server for every udp-prefixed network. */
  lemma FramingAgreesIff(cfg: Setup, st: State)
    requires IsSetup(cfg) && Inv(cfg, st) && st.client.Transfer?
    ensures st.server.Serving?
    ensures st.client.packets == st.server.packets <==> (cfg.network == "udp" || cfg.network[..3] != "udp")
  {
  }

  /** A finished handshake is in transfer exactly when everything a dial needs was there. */
  lemma OutcomeIff(cfg: Setup, st: State)
    requires IsSetup(cfg) && Inv(cfg, st) && Over(st)
    ensures st.client.Transfer? <==> Succeeds(cfg)
    ensures st.server.Serving? <==> Succeeds(cfg)
  {
  }

  /** From the first byte: every finished run agrees, every unfinished one can go on, and none goes on for ever. */
  lemma HandshakeAgreement(cfg: Setup, actions: seq<Action>, end: State)
    requires IsSetup(cfg) && Reaches(cfg, INITIAL, actions, end)
    ensures |actions| <= 7 * MESSAGE_LIMIT
    ensures Over(end) || exists a :: Do(cfg, end, a).Some?
    ensures Over(end) ==> (end.client.Transfer? <==> Succeeds(cfg)) && (end.server.Serving? <==> Succeeds(cfg))
    ensures end.client.Transfer? ==> end.server.Serving?
    ensures end.client.Transfer? ==>
              cfg.target == Some(end.server.address) && end.server.cmd == Command(cfg.network) &&
              (end.client.packets == end.server.packets <==> (cfg.network == "udp" || cfg.network[..3] != "udp"))
  {
    assert At(cfg, Fresh, INITIAL);
    ReachableInv(cfg, INITIAL, actions, end);
    RunsEnd(cfg, INITIAL, actions, end);
    NeverSplit(cfg, end);
    if end.client.Transfer? {
      TransferAgrees(cfg, end);
      FramingAgreesIff(cfg, end);
    }
    if Over(end) {
      OutcomeIff(cfg, end);
    } else {
      NeverStuck(cfg, end);
    }
  }

  /** Going on as long as something can move leads to the end. */
  lemma {:induction false} RunToEnd(cfg: Setup, st: State) returns (actions: seq<Action>, end: State)
    requires IsSetup(cfg) && Inv(cfg, st)
    ensures Reaches(cfg, st, actions, end) && Over(end) && Inv(cfg, end)
    decreases Rank(st)
  {
    if Over(st) {
      return [], st;
    }
    NeverStuck(cfg, st);
    var a :| Do(cfg, st, a).Some?;
    RankFalls(cfg, st, a);
    StepKeepsInv(cfg, st, a);
    var rest;
    rest, end := RunToEnd(cfg, Do(cfg, st, a).value);
    actions := [a] + rest;
    assert actions[0] == a && actions[1..] == rest;
  }

  /** Every dial that has what it needs does end in transfer, and with "udp4" the two sides then frame differently. */
  lemma SuccessIsReached(cfg: Setup)
    requires IsSetup(cfg) && Succeeds(cfg)
    ensures exists actions, end :: Reaches(cfg, INITIAL, actions, end) && end.client.Transfer? && end.server.Serving? &&
              (cfg.network == "udp4" ==> !end.client.packets && end.server.packets)
  {
    assert At(cfg, Fresh, INITIAL);
    var actions, end := RunToEnd(cfg, INITIAL);
    OutcomeIff(cfg, end);
    FramingAgreesIff(cfg, end);
    TransferAgrees(cfg, end);
    var ph :| At(cfg, ph, end);
    assert Reaches(cfg, INITIAL, actions, end);
  }

  // ---- What a refused client is sent ----

  /** A client left waiting by a finished server is sent just the refusal, unless its own request was no good. */
  lemma RefusalOnTheWire(cfg: Setup, st: State)
    requires IsSetup(cfg) && Inv(cfg, st) && st.client == AwaitReply && st.server == Finished
    ensures (cfg.target.Some? && Whole(st.down) == Framed(Refusal(cfg.target.value))) ||
            (Whole(st.down) == [] && st.down.shut)
  {
    var ph :| At(cfg, ph, st);
    assert ph.Refused? || ph.Dropped?;
  }

  lemma RefusalIs(target: Address)
    requires IsAddress(target)
    ensures Refusal(target) == Message(REP_HOST_UNREACHABLE, ZeroAddress(target))
  {
    EncodingLayout(target);
    assert V4_PREFIX + [0, 0, 0, 0] == [0, 0, 0, 0, 0, 0, 0, 0, 0, 0, 255, 255, 0, 0, 0, 0];
  }

  /** A command the server does not know is answered as such, and the stream closed. */
  lemma UnknownCommandRefused(cfg: Setup, st: State, req: Message)
    requires req.code != 1 && req.code != 4 && req.code != 5 && IsAddress(req.address)
    ensures var st' := Answer(cfg, st, req);
            st'.server == Finished && st'.down.shut && st'.client == st.client && st'.up == st.up &&
            Whole(st'.down) == Whole(st.down) + Framed(Refusal(req.address).(code := 7))
  {
    RefusalIs(req.address);
    SentWhole(st.down, Framed(Refusal(req.address).(code := 7)));
  }

  // ---- The server against any client ----

  /** A client that sends what it likes, ends its side when it likes, and is served between. */
  datatype Move = Inject(b: seq<byte>) | EndUp | Arrive(n: nat) | Serve

  function Against(cfg: Setup, st: State, m: Move): Option<State>
  {
    match m
    case Inject(b) => if st.up.shut then None else Some(st.(up := Sent(st.up, b)))
    case EndUp => Some(st.(up := st.up.(shut := true)))
    case Arrive(n) => Do(cfg, st, DeliverUp(n))
    case Serve => ServerStep(cfg, st)
  }

  ghost predicate Endures(cfg: Setup, st: State, moves: seq<Move>, end: State)
    decreases |moves|
  {
    if moves == [] then st == end
    else Against(cfg, st, moves[0]).Some? && Endures(cfg, Against(cfg, st, moves[0]).value, moves[1..], end)
  }

  function BytesOf(m: Move): seq<byte>
  {
    if m.Inject? then m.b else []
  }

  /** All that the client sent. */
  function Injected(moves: seq<Move>): seq<byte>
  {
    if moves == [] then [] else BytesOf(moves[0]) + Injected(moves[1..])
  }

  /** Eight of the bytes, in a row, are a token that is accepted. */
  ghost predicate HoldsToken(cfg: Setup, sent: seq<byte>)
  {
    exists i :: TokenAt(cfg, sent, i)
  }

  ghost predicate TokenAt(cfg: Setup, sent: seq<byte>, i: int)
  {
    0 <= i <= |sent| - 8 && cfg.accepts(LittleEndianValue(sent[i..i + 8]))
  }

  lemma TokenStays(cfg: Setup, a: seq<byte>, b: seq<byte>, c: seq<byte>)
    requires HoldsToken(cfg, b)
    ensures HoldsToken(cfg, a + b + c)
  {
    var i :| TokenAt(cfg, b, i);
    assert (a + b + c)[|a| + i..|a| + i + 8] == b[i..i + 8];
    assert TokenAt(cfg, a + b + c, |a| + i);
  }

  /** Without a token so far, what is still in the pipe was sent last, and a server past the negotiation has nothing
      left to read. */
  ghost predicate Kept(cfg: Setup, st: State, sent: seq<byte>)
  {
    HoldsToken(cfg, sent) ||
    ((exists k :: 0 <= k <= |sent| && Whole(st.up) == sent[k..]) &&
     !st.server.Serving? && (st.server == AwaitRequest ==> st.up.shut && Whole(st.up) == []))
  }

  lemma InjectKeeps(cfg: Setup, st: State, sent: seq<byte>, b: seq<byte>)
    requires Kept(cfg, st, sent) && !st.up.shut
    ensures Kept(cfg, st.(up := Sent(st.up, b)), sent + b)
  {
    if HoldsToken(cfg, sent) {
      TokenStays(cfg, [], sent, b);
      assert [] + sent + b == sent + b;
    } else {
      var k :| 0 <= k <= |sent| && Whole(st.up) == sent[k..];
      SentWhole(st.up, b);
      assert (sent + b)[k..] == sent[k..] + b;
    }
  }

  /** Reading off the front leaves the end. */
  lemma RestIsLast(p: Pipe, sent: seq<byte>, k: nat, head: seq<byte>, rest: seq<byte>)
    requires k <= |sent| && Whole(p) == sent[k..] && p.arrived == head + rest
    ensures k + |head| <= |sent| && Whole(p.(arrived := rest)) == sent[k + |head|..]
  {
    assert Whole(p) == head + (rest + p.flight);
    assert sent[k..][|head|..] == sent[k + |head|..];
  }

  lemma PasswordIsSent(cfg: Setup, p: Pipe, sent: seq<byte>, k: nat, c: Credentials, rest: seq<byte>)
    requires k <= |sent| && Whole(p) == sent[k..] && ParseUserPass(p.arrived) == Done(c, rest)
    requires PasswordAccepted(cfg, c)
    ensures HoldsToken(cfg, sent)
  {
    UserPassInverse(p.arrived);
    TokenInMessage(cfg, c);
    TokenInPipe(cfg, p, UserPass(c), rest);
    TokenInEnd(cfg, sent, k);
  }

  lemma TokenInPipe(cfg: Setup, p: Pipe, message: seq<byte>, rest: seq<byte>)
    requires p.arrived == message + rest && HoldsToken(cfg, message)
    ensures HoldsToken(cfg, Whole(p))
  {
    TokenStays(cfg, [], message, rest + p.flight);
    assert [] + message + (rest + p.flight) == Whole(p);
  }

  lemma TokenInEnd(cfg: Setup, sent: seq<byte>, k: nat)
    requires k <= |sent| && HoldsToken(cfg, sent[k..])
    ensures HoldsToken(cfg, sent)
  {
    TokenStays(cfg, sent[..k], sent[k..], []);
    assert sent[..k] + sent[k..] + [] == sent;
  }

  lemma TokenInMessage(cfg: Setup, c: Credentials)
    requires |c.user| < 256 && |c.password| < 256 && PasswordAccepted(cfg, c)
    ensures HoldsToken(cfg, UserPass(c))
  {
    var front, token, back := [AUTH_VERSION, |c.user|] + c.user + [|c.password|], c.password[..8], c.password[8..];
    assert token[0..8] == token;
    assert TokenAt(cfg, token, 0);
    TokenStays(cfg, front, token, back);
    assert c.password == token + back;
    assert front + token + back == UserPass(c);
  }

  /** A negotiation that ends with the stream leaves an empty pipe. */
  lemma ErrorKeeps(cfg: Setup, st: State, sent: seq<byte>, eof: bool)
    requires Kept(cfg, st, sent) && !HoldsToken(cfg, sent) && (eof ==> st.up.shut && st.up.flight == [])
    ensures Kept(cfg, NegotiationError(st, eof), sent)
  {
    assert sent[|sent|..] == [];
  }

  lemma HelloKeeps(cfg: Setup, st: State, sent: seq<byte>)
    requires cfg.needAuth && Kept(cfg, st, sent) && !HoldsToken(cfg, sent)
    requires st.server == AwaitHello && ServerStep(cfg, st).Some?
    ensures Kept(cfg, ServerStep(cfg, st).value, sent)
  {
    var k :| 0 <= k <= |sent| && Whole(st.up) == sent[k..];
    var parsed := ParseNegotiation(st.up.arrived);
    if parsed.Done? {
      NegotiationInverse(st.up.arrived);
      RestIsLast(st.up, sent, k, Negotiation(parsed.value), parsed.rest);
    } else {
      ErrorKeeps(cfg, st, sent, ReadOff(st.up, parsed).eof);
    }
  }

  lemma PasswordRefused(cfg: Setup, st: State, sent: seq<byte>, k: nat, c: Credentials, rest: seq<byte>)
    requires k <= |sent| && Whole(st.up) == sent[k..] && ParseUserPass(st.up.arrived) == Done(c, rest)
    requires st.server == AwaitPassword && !PasswordAccepted(cfg, c)
    ensures ServerStep(cfg, st).Some? && Kept(cfg, ServerStep(cfg, st).value, sent)
  {
    UserPassInverse(st.up.arrived);
    RestIsLast(st.up, sent, k, UserPass(c), rest);
  }

  lemma PasswordKeeps(cfg: Setup, st: State, sent: seq<byte>)
    requires cfg.needAuth && Kept(cfg, st, sent) && !HoldsToken(cfg, sent)
    requires st.server == AwaitPassword && ServerStep(cfg, st).Some?
    ensures Kept(cfg, ServerStep(cfg, st).value, sent)
  {
    var k :| 0 <= k <= |sent| && Whole(st.up) == sent[k..];
    var parsed := ParseUserPass(st.up.arrived);
    if parsed.Done? && PasswordAccepted(cfg, parsed.value) {
      PasswordIsSent(cfg, st.up, sent, k, parsed.value, parsed.rest);
    } else if parsed.Done? {
      PasswordRefused(cfg, st, sent, k, parsed.value, parsed.rest);
    } else {
      ErrorKeeps(cfg, st, sent, ReadOff(st.up, parsed).eof);
    }
  }

  lemma RequestKeeps(cfg: Setup, st: State, sent: seq<byte>)
    requires Kept(cfg, st, sent) && !HoldsToken(cfg, sent)
    requires st.server == AwaitRequest && ServerStep(cfg, st).Some?
    ensures Kept(cfg, ServerStep(cfg, st).value, sent)
  {
    assert st.up.arrived == [] && ParseMessage([]) == Need;
    assert ServerStep(cfg, st).value == Close(st);
  }

  lemma ServeKeeps(cfg: Setup, st: State, sent: seq<byte>)
    requires cfg.needAuth && Kept(cfg, st, sent) && ServerStep(cfg, st).Some?
    ensures Kept(cfg, ServerStep(cfg, st).value, sent)
  {
    if !HoldsToken(cfg, sent) {
      match st.server
      case AwaitHello => HelloKeeps(cfg, st, sent);
      case AwaitPassword => PasswordKeeps(cfg, st, sent);
      case AwaitRequest => RequestKeeps(cfg, st, sent);
      case Serving(_, _, _) =>
      case Finished =>
    }
  }

  lemma MoveKeeps(cfg: Setup, st: State, m: Move, sent: seq<byte>)
    requires cfg.needAuth && Kept(cfg, st, sent) && Against(cfg, st, m).Some?
    ensures Kept(cfg, Against(cfg, st, m).value, sent + BytesOf(m))
  {
    assert sent + [] == sent;
    match m
    case Inject(b) => InjectKeeps(cfg, st, sent, b);
    case EndUp =>
    case Arrive(n) => DeliveryKeepsWhole(st.up, n);
    case Serve => ServeKeeps(cfg, st, sent);
  }

  lemma {:induction false} MovesKeep(cfg: Setup, st: State, moves: seq<Move>, end: State, sent: seq<byte>)
    requires cfg.needAuth && Kept(cfg, st, sent) && Endures(cfg, st, moves, end)
    ensures Kept(cfg, end, sent + Injected(moves))
    decreases |moves|
  {
    if moves == [] {
      assert sent + [] == sent;
    } else {
      MoveKeeps(cfg, st, moves[0], sent);
      MovesKeep(cfg, Against(cfg, st, moves[0]).value, moves[1..], end, sent + BytesOf(moves[0]));
      Regrouped(sent, BytesOf(moves[0]), Injected(moves[1..]));
    }
  }

  lemma Regrouped(a: seq<byte>, b: seq<byte>, c: seq<byte>)
    ensures (a + b) + c == a + (b + c)
  {
  }

  /** Whatever bytes a client sends, in whatever pieces, and wherever it breaks off: a server that asks for a token
      serves it only if eight bytes of what it sent are an accepted one. */
  lemma NoServiceWithoutToken(cfg: Setup, moves: seq<Move>, end: State)
    requires cfg.needAuth && Endures(cfg, INITIAL, moves, end) && end.server.Serving?
    ensures HoldsToken(cfg, Injected(moves))
  {
    assert Whole(INITIAL.up) == [][0..];
    MovesKeep(cfg, INITIAL, moves, end, []);
    assert [] + Injected(moves) == Injected(moves);
  }

  /** What the server makes of a whole message from any client: which methods are offered does not matter, eight bytes
      of password decide, and either kind of connection is opened. */
  lemma ServerAnswers(cfg: Setup, st: State)
    requires ServerStep(cfg, st).Some?
    ensures var (b, st') := (st.up.arrived, ServerStep(cfg, st).value);
            match st.server
            case AwaitHello =>
              var m := ParseNegotiation(b);
              m.Done? ==>
                st'.up == st.up.(arrived := m.rest) && st'.down == Sent(st.down, [5, if cfg.needAuth then 2 else 0]) &&
                st'.server == if cfg.needAuth then AwaitPassword else AwaitRequest
            case AwaitPassword =>
              var m := ParseUserPass(b);
              m.Done? ==>
                var ok := |m.value.password| >= 8 && cfg.accepts(LittleEndianValue(m.value.password[..8]));
                st'.up == st.up.(arrived := m.rest) && st'.down == Sent(st.down, [1, if ok then 0 else 1]) &&
                st'.server == if ok then AwaitRequest else Finished
            case AwaitRequest =>
              var m := ParseMessage(b);
              m.Done? && (m.value.code == 1 || m.value.code == 4) && cfg.dial.Some? ==>
                st'.up == st.up.(arrived := m.rest) &&
                st'.down == Sent(st.down, Framed(Message(0, cfg.dial.value))) &&
                st'.server == Serving(m.value.code, m.value.address, m.value.code == 4)
            case _ => false
  {
  }

  /** Where the stream ends inside the negotiation, the server still looks for a request, finds none and closes. */
  lemma CutNegotiationCloses(cfg: Setup, st: State)
    requires st.up.shut && st.up.flight == []
    requires (st.server == AwaitHello && ParseNegotiation(st.up.arrived).Need?) ||
             (st.server == AwaitPassword && ParseUserPass(st.up.arrived).Need?)
    ensures var next := ServerStep(cfg, st);
            next.Some? && next.value.server == AwaitRequest &&
            var last := ServerStep(cfg, next.value);
            last.Some? && last.value.server == Finished && last.value.down == st.down.(shut := true)
  {
  }

  /** A server that gives up while negotiating leaves the stream open; one that gives up on a request closes it. */
  lemma ServerLeavesOpen(cfg: Setup, st: State)
    requires ServerStep(cfg, st).Some? && ServerStep(cfg, st).value.server == Finished
    ensures ServerStep(cfg, st).value.down.shut <==> st.down.shut || st.server == AwaitRequest
  {
  }

  // ---- The client against any server ----

  /** Whatever the server sends, the client shows its token only when asked for it, sends its request only when told to
      go on, and hands over a connection only after a reply of success. */
  lemma ClientGoesOnIfTold(cfg: Setup, st: State)
    requires IsSetup(cfg) && ClientStep(cfg, st).Some?
    requires st.client != Hello && ClientStep(cfg, st).value.client != Failed
    ensures var (b, st') := (st.down.arrived, ClientStep(cfg, st).value);
            |b| >= 2 &&
            match st'.client
            case AwaitStatus =>
              b[..2] == [5, 2] && st'.up == Sent(st.up, UserPass(TokenCredentials(cfg.token)))
            case AwaitReply =>
              b[..2] == (if st.client == AwaitMethod then [5, 0] else [1, 0]) && cfg.target.Some? &&
              st'.up == Sent(st.up, Framed(Message(if cfg.network[..3] == "udp" then 4 else 1, cfg.target.value)))
            case Transfer(packets) => b[..2] == [5, 0] && st'.up == st.up && packets == (cfg.network == "udp")
            case _ => false
  {
  }

  /** A client that gives up resets the stream, except over the answer to its token. */
  lemma ClientResets(cfg: Setup, st: State)
    requires ClientStep(cfg, st).Some? && ClientStep(cfg, st).value.client == Failed
    ensures var b := st.down.arrived;
            ClientStep(cfg, st).value.up ==
            if st.client == AwaitStatus && !(|b| >= 2 && b[..2] == [1, 0]) then st.up else st.up.(shut := true)
  {
  }

  const LOOPBACK := Address(Ip([0, 0, 0, 0, 0, 0, 0, 0, 0, 0, 0, 0, 0, 0, 0, 1]), 53)

  /** A dial over "udp4" that needs no token and is granted. */
  const UDP4_DIAL := Setup(0, "udp4", Some(LOOPBACK), false, token => true, Some(LOOPBACK))

  /** A run after which the client sends bare datagrams to a server that expects frames. */
  lemma MismatchIsReached() returns (actions: seq<Action>, end: State)
    ensures Reaches(UDP4_DIAL, INITIAL, actions, end)
    ensures end.client == Transfer(false) && end.server.Serving? && end.server.packets
  {
    SuccessIsReached(UDP4_DIAL);
    actions, end :| Reaches(UDP4_DIAL, INITIAL, actions, end) && end.client.Transfer? && end.server.Serving? &&
                    !end.client.packets && end.server.packets;
  }
}
