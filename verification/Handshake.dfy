// Dialer.dialContext against handler: two step machines joined by two byte pipes
// (socks5/client.go, socks5/server.go).

module Handshake {
  import opened Words
  import opened Cidr
  import opened SocksAddress
  import opened SocksCodec

  /** What one dial is given: the client's inputs, the server's token check, and the outcome of its outbound
      connection, whose local address goes into the reply. */
  datatype Setup = Setup(
    token: nat, network: string, target: Option<Address>,
    needAuth: bool, accepts: nat -> bool, dial: Option<Address>)

  datatype Client = Hello | AwaitMethod | AwaitStatus | AwaitReply | Transfer(packets: bool) | Failed

  datatype Server =
    | AwaitHello | AwaitPassword | AwaitRequest
    | Serving(cmd: byte, address: Address, packets: bool)
    | Finished

  /** A FIFO byte channel: sent bytes become readable in chunks of any size. */
  datatype Pipe = Pipe(flight: seq<byte>, arrived: seq<byte>, shut: bool)

  datatype State = State(client: Client, server: Server, up: Pipe, down: Pipe)

  datatype Action = DeliverUp(n: nat) | DeliverDown(n: nat) | ClientMoves | ServerMoves

  const INITIAL: State := State(Hello, AwaitHello, Pipe([], [], false), Pipe([], [], false))

  function Sent(p: Pipe, b: seq<byte>): Pipe {
    p.(flight := p.flight + b)
  }

  function Delivered(p: Pipe, n: nat): Pipe
    requires n <= |p.flight|
  {
    p.(arrived := p.arrived + p.flight[..n], flight := p.flight[n..])
  }

  /** A blocking read: it waits while the message is incomplete and the pipe may still bring bytes. */
  datatype Read<+T> = Blocked | Error(eof: bool) | Got(value: T, pipe: Pipe)

  function ReadOff<T>(p: Pipe, r: Parse<T>): Read<T> {
    match r
    case Done(v, rest) => Got(v, p.(arrived := rest))
    case Bad => Error(false)
    case Need => if p.shut && p.flight == [] then Error(true) else Blocked
  }

  // The client

  predicate IsUdp(network: string) {
    |network| >= 3 && network[..3] == "udp"
  }

  function Command(network: string): byte {
    if IsUdp(network) then CMD_CONNECT_UDP else CMD_CONNECT
  }

  function TokenCredentials(token: nat): Credentials {
    Credentials(LittleEndian(token, 8), LittleEndian(token, 8))
  }

  function Reset(st: State): State {
    st.(client := Failed, up := st.up.(shut := true))
  }

  /** The target is parsed only now, so a bad one is discovered after authentication. */
  function SendRequest(cfg: Setup, st: State): State {
    if cfg.target == None then Reset(st)
    else st.(client := AwaitReply, up := Sent(st.up, Framed(Message(Command(cfg.network), cfg.target.value))))
  }

  /** None while the client waits. */
  function ClientStep(cfg: Setup, st: State): Option<State> {
    match st.client
    case Hello => Some(st.(client := AwaitMethod, up := Sent(st.up, Negotiation([METHOD_PASSWORD]))))
    case AwaitMethod =>
      (match ReadOff(st.down, ParsePair(VERSION, st.down.arrived))
       case Blocked => None
       case Error(_) => Some(Reset(st))
       case Got(choice, down) =>
         var st := st.(down := down);
         if choice == METHOD_PASSWORD then
           Some(st.(client := AwaitStatus, up := Sent(st.up, UserPass(TokenCredentials(cfg.token)))))
         else if choice == METHOD_NONE then Some(SendRequest(cfg, st))
         else Some(Reset(st)))
    case AwaitStatus =>
      (match ReadOff(st.down, ParsePair(AUTH_VERSION, st.down.arrived))
       case Blocked => None
       case Error(_) => Some(st.(client := Failed))
       case Got(status, down) =>
         var st := st.(down := down);
         if status == 0 then Some(SendRequest(cfg, st)) else Some(st.(client := Failed)))
    case AwaitReply =>
      (match ReadOff(st.down, ParseMessage(st.down.arrived))
       case Blocked => None
       case Error(_) => Some(Reset(st))
       case Got(reply, down) =>
         var st := st.(down := down);
         if reply.code == REP_SUCCESS then Some(st.(client := Transfer(cfg.network == "udp"))) else Some(Reset(st)))
    case Transfer(_) => None
    case Failed => None
  }

  // The server

  function Close(st: State): State {
    st.(server := Finished, down := st.down.(shut := true))
  }

  /** replyErr: the zero address of the request's family. */
  function ZeroAddress(a: Address): Address {
    if a.host.Ip? && Encode(a)[0] == ATYP_IPV6 then Address(Ip(seq(16, _ => 0)), 0)
    else Address(Ip(HostOf(ATYP_IPV4, [0, 0, 0, 0]).bytes), 0)
  }

  /** socks5Auth. */
  predicate PasswordAccepted(cfg: Setup, c: Credentials) {
    |c.password| >= 8 && cfg.accepts(LittleEndianValue(c.password[..8]))
  }

  /** A failed negotiation read: at the end of the stream, which uses up what was there, the handler falls through to
      the request; other errors end it. */
  function NegotiationError(st: State, eof: bool): State {
    if eof then st.(server := AwaitRequest, up := st.up.(arrived := [])) else st.(server := Finished)
  }

  function Answer(cfg: Setup, st: State, req: Message): State {
    if req.code != CMD_CONNECT && req.code != CMD_CONNECT_UDP then
      Close(st.(down := Sent(st.down, Framed(Message(REP_UNSUPPORTED, ZeroAddress(req.address))))))
    else if cfg.dial == None then
      Close(st.(down := Sent(st.down, Framed(Message(REP_HOST_UNREACHABLE, ZeroAddress(req.address))))))
    else
      st.(server := Serving(req.code, req.address, req.code == CMD_CONNECT_UDP),
          down := Sent(st.down, Framed(Message(REP_SUCCESS, cfg.dial.value))))
  }

  /** None while the server waits. */
  function ServerStep(cfg: Setup, st: State): Option<State> {
    match st.server
    case AwaitHello =>
      (match ReadOff(st.up, ParseNegotiation(st.up.arrived))
       case Blocked => None
       case Error(eof) => Some(NegotiationError(st, eof))
       case Got(_, up) =>
         if cfg.needAuth then
           Some(st.(server := AwaitPassword, up := up, down := Sent(st.down, Pair(VERSION, METHOD_PASSWORD))))
         else
           Some(st.(server := AwaitRequest, up := up, down := Sent(st.down, Pair(VERSION, METHOD_NONE)))))
    case AwaitPassword =>
      (match ReadOff(st.up, ParseUserPass(st.up.arrived))
       case Blocked => None
       case Error(eof) => Some(NegotiationError(st, eof))
       case Got(c, up) =>
         if PasswordAccepted(cfg, c) then
           Some(st.(server := AwaitRequest, up := up, down := Sent(st.down, Pair(AUTH_VERSION, 0))))
         else
           Some(st.(server := Finished, up := up, down := Sent(st.down, Pair(AUTH_VERSION, 1)))))
    case AwaitRequest =>
      (match ReadOff(st.up, ParseMessage(st.up.arrived))
       case Blocked => None
       case Error(_) => Some(Close(st))
       case Got(req, up) => Some(Answer(cfg, st.(up := up), req)))
    case Serving(_, _, _) => None
    case Finished => None
  }

  // Runs

  function Do(cfg: Setup, st: State, a: Action): Option<State> {
    match a
    case DeliverUp(n) => if 0 < n <= |st.up.flight| then Some(st.(up := Delivered(st.up, n))) else None
    case DeliverDown(n) => if 0 < n <= |st.down.flight| then Some(st.(down := Delivered(st.down, n))) else None
    case ClientMoves => ClientStep(cfg, st)
    case ServerMoves => ServerStep(cfg, st)
  }

  ghost predicate Reaches(cfg: Setup, st: State, actions: seq<Action>, end: State)
    decreases |actions|
  {
    if actions == [] then st == end
    else
      Do(cfg, st, actions[0]).Some? &&
      Reaches(cfg, Do(cfg, st, actions[0]).value, actions[1..], end)
  }

  /** A dial as the source allows it: network of three characters or more, names of at most 255 bytes. */
  ghost predicate IsSetup(cfg: Setup)
  {
    cfg.token < TWO_64 && |cfg.network| >= 3 && (cfg.dial.Some? ==> IsSound(cfg.dial.value)) &&
    (cfg.target.Some? ==>
      IsAddress(cfg.target.value) && (cfg.target.value.host.Name? ==> |cfg.target.value.host.name| <= 255))
  }

  predicate Over(st: State) {
    (st.client.Transfer? && st.server.Serving?) || (st.client == Failed && st.server == Finished)
  }

  // ---- The phases every run goes through ----

  datatype Phase =
    | Fresh | Greeted | AuthAsked | AuthWaived | PasswordSent | Accepted | Rejected
    | Requested | Granted | Refused(reply: Message) | Dropped | Abandoned | Open | Stopped

  ghost predicate Authorised(cfg: Setup) {
    cfg.needAuth ==> cfg.accepts(cfg.token)
  }

  /** Everything a dial needs: an accepted token where one is asked for, a usable target, an outbound connection. */
  ghost predicate Succeeds(cfg: Setup) {
    Authorised(cfg) && cfg.target.Some? && IsSound(cfg.target.value) && cfg.dial.Some?
  }

  /** What a client is told whose target could not be reached: the zero address of the target's family. */
  ghost function Refusal(target: Address): Message {
    Message(4, Address(Ip(if target.host.Ip? && !IsMapped(target.host.bytes) then seq(16, _ => 0)
                          else [0, 0, 0, 0, 0, 0, 0, 0, 0, 0, 255, 255, 0, 0, 0, 0]), 0))
  }

  ghost function Whole(p: Pipe): seq<byte> {
    p.arrived + p.flight
  }

  ghost predicate Holds(st: State, c: Client, s: Server, up: seq<byte>, down: seq<byte>) {
    st.client == c && st.server == s && Whole(st.up) == up && Whole(st.down) == down
  }

  ghost predicate BothOpen(st: State) {
    !st.up.shut && !st.down.shut
  }

  ghost predicate At(cfg: Setup, ph: Phase, st: State)
  {
    var req := Message(Command(cfg.network), if cfg.target.Some? then cfg.target.value else Address(Name([]), 0));
    match ph
    case Fresh => Holds(st, Hello, AwaitHello, [], []) && BothOpen(st)
    case Greeted => Holds(st, AwaitMethod, AwaitHello, Negotiation([METHOD_PASSWORD]), []) && BothOpen(st)
    case AuthAsked =>
      cfg.needAuth && Holds(st, AwaitMethod, AwaitPassword, [], Pair(VERSION, METHOD_PASSWORD)) && BothOpen(st)
    case AuthWaived =>
      !cfg.needAuth && Holds(st, AwaitMethod, AwaitRequest, [], Pair(VERSION, METHOD_NONE)) && BothOpen(st)
    case PasswordSent =>
      cfg.needAuth && Holds(st, AwaitStatus, AwaitPassword, UserPass(TokenCredentials(cfg.token)), []) && BothOpen(st)
    case Accepted =>
      Authorised(cfg) && Holds(st, AwaitStatus, AwaitRequest, [], Pair(AUTH_VERSION, 0)) && BothOpen(st)
    case Rejected => !Authorised(cfg) && Holds(st, AwaitStatus, Finished, [], Pair(AUTH_VERSION, 1))
    case Requested =>
      Authorised(cfg) && cfg.target.Some? && Holds(st, AwaitReply, AwaitRequest, Framed(req), []) && !st.down.shut
    case Granted =>
      Succeeds(cfg) &&
      Holds(st, AwaitReply, Serving(req.code, req.address, req.code == CMD_CONNECT_UDP), [],
            Framed(Message(REP_SUCCESS, cfg.dial.value)))
    case Refused(m) =>
      !Succeeds(cfg) && cfg.target.Some? && m == Refusal(cfg.target.value) &&
      Holds(st, AwaitReply, Finished, [], Framed(m))
    case Dropped =>
      !Succeeds(cfg) && st.client == AwaitReply && st.server == Finished && Whole(st.down) == [] && st.down.shut
    case Abandoned => cfg.target == None && Holds(st, Failed, AwaitRequest, [], []) && st.up.shut
    case Open =>
      Succeeds(cfg) &&
      Holds(st, Transfer(cfg.network == "udp"), Serving(req.code, req.address, req.code == CMD_CONNECT_UDP), [], [])
    case Stopped => !Succeeds(cfg) && st.client == Failed && st.server == Finished
  }

  ghost predicate Inv(cfg: Setup, st: State) {
    exists ph :: At(cfg, ph, st)
  }

  /** Reading a pipe that holds exactly one message: get it whole, or wait for bytes still in flight. */
  lemma ReadKnown<T>(p: Pipe, r: Parse<T>, whole: Parse<T>, v: T)
    requires Settled(r, whole, p.flight) && whole == Done(v, []) && (p.flight == [] ==> r == whole)
    ensures r.Done? ==> r.value == v && r.rest == [] && p.flight == []
    ensures !r.Bad? && (r.Need? ==> p.flight != [])
  {
  }

  lemma PairRead(version: byte, p: Pipe, v: byte)
    requires Whole(p) == Pair(version, v)
    ensures var r := ReadOff(p, ParsePair(version, p.arrived));
            (r == Got(v, Pipe([], [], p.shut)) && p.flight == []) || (r == Blocked && p.flight != [])
  {
    PairStable(version, p.arrived, p.flight);
    PairRoundTrip(version, v, []);
    assert Pair(version, v) + [] == Whole(p);
    assert p.flight == [] ==> p.arrived == Whole(p);
    ReadKnown(p, ParsePair(version, p.arrived), ParsePair(version, Whole(p)), v);
  }

  lemma HelloRead(p: Pipe)
    requires Whole(p) == Negotiation([METHOD_PASSWORD])
    ensures var r := ReadOff(p, ParseNegotiation(p.arrived));
            (r == Got([METHOD_PASSWORD], Pipe([], [], p.shut)) && p.flight == []) || (r == Blocked && p.flight != [])
  {
    NegotiationStable(p.arrived, p.flight);
    NegotiationRoundTrip([METHOD_PASSWORD], []);
    assert Negotiation([METHOD_PASSWORD]) + [] == Whole(p);
    assert p.flight == [] ==> p.arrived == Whole(p);
    ReadKnown(p, ParseNegotiation(p.arrived), ParseNegotiation(Whole(p)), [METHOD_PASSWORD]);
  }

  lemma PasswordRead(p: Pipe, c: Credentials)
    requires 0 < |c.user| < 256 && 0 < |c.password| < 256 && Whole(p) == UserPass(c)
    ensures var r := ReadOff(p, ParseUserPass(p.arrived));
            (r == Got(c, Pipe([], [], p.shut)) && p.flight == []) || (r == Blocked && p.flight != [])
  {
    UserPassStable(p.arrived, p.flight);
    UserPassRoundTrip(c, []);
    assert UserPass(c) + [] == Whole(p);
    assert p.flight == [] ==> p.arrived == Whole(p);
    ReadKnown(p, ParseUserPass(p.arrived), ParseUserPass(Whole(p)), c);
  }

  lemma MessageRead(p: Pipe, m: Message)
    requires IsSound(m.address) && Whole(p) == Framed(m)
    ensures var r := ReadOff(p, ParseMessage(p.arrived));
            (r == Got(m, Pipe([], [], p.shut)) && p.flight == []) || (r == Blocked && p.flight != [])
  {
    MessageStable(p.arrived, p.flight);
    MessageRoundTripIff(m, []);
    assert Framed(m) + [] == Whole(p);
    assert p.flight == [] ==> p.arrived == Whole(p);
    ReadKnown(p, ParseMessage(p.arrived), ParseMessage(Whole(p)), m);
  }

  /** A request with an empty name: refused as soon as enough of it is there. */
  lemma EmptyNameRead(p: Pipe, m: Message)
    requires IsAddress(m.address) && m.address.host == Name([]) && Whole(p) == Framed(m)
    ensures var r := ReadOff(p, ParseMessage(p.arrived));
            (r == Error(false)) || (r == Blocked && p.flight != [])
  {
    MessageStable(p.arrived, p.flight);
    EmptyNameRefused(m, []);
    assert Framed(m) + [] == Whole(p);
    assert p.flight == [] ==> p.arrived == Whole(p);
  }

  /** The server's token check is made on the client's own token. */
  lemma TokenArrives(cfg: Setup)
    requires IsSetup(cfg)
    ensures PasswordAccepted(cfg, TokenCredentials(cfg.token)) <==> cfg.accepts(cfg.token)
    ensures var c := TokenCredentials(cfg.token);
            |c.user| == |c.password| == 8 && LittleEndianValue(c.user) == LittleEndianValue(c.password) == cfg.token
  {
    var b := LittleEndian(cfg.token, 8);
    assert b[..8] == b;
    assert Pow256(8) == TWO_64 by { assert Pow256(4) == TWO_32; }
    LittleEndianRoundTrip(cfg.token, 8);
  }
}
