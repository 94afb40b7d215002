// Listener keys (convertIndex), and a listener map set against the apps that demand its entries.

module ListenerKeys {
  import opened Decimal

  datatype Endpoint = Endpoint(network: string, ip: string, port: int)

  /** convertIndex. */
  function Index(e: Endpoint): string {
    e.network + "://" + e.ip + ":" + Integer(e.port)
  }

  /** The last colon ends the left part. */
  lemma LastSplit(a: string, b: string, c: string, d: string)
    requires a + ":" + b == c + ":" + d && ':' !in b && ':' !in d
    ensures a == c && b == d
  {
    var s := a + ":" + b;
    assert s[|a|] == ':' && s[|c|] == ':';
    assert forall i :: |a| < i < |s| ==> s[i] == b[i - |a| - 1];
    assert forall i :: |c| < i < |s| ==> s[i] == d[i - |c| - 1];
    assert |a| == |c|;
    assert a == s[..|a|] && c == s[..|c|];
    assert b == s[|a| + 1..] && d == s[|c| + 1..];
  }

  /** The first colon ends the left part. */
  lemma FirstSplit(a: string, b: string, c: string, d: string)
    requires a + ":" + b == c + ":" + d && ':' !in a && ':' !in c
    ensures a == c && b == d
  {
    var s := a + ":" + b;
    assert s[|a|] == ':' && s[|c|] == ':';
    assert forall i :: 0 <= i < |a| ==> s[i] == a[i];
    assert forall i :: 0 <= i < |c| ==> s[i] == c[i];
    assert |a| == |c|;
    assert a == s[..|a|] && c == s[..|c|];
    assert b == s[|a| + 1..] && d == s[|c| + 1..];
  }

  /** Equal keys have equal ports: the port stands after the last colon. */
  lemma SameKeySamePort(e: Endpoint, f: Endpoint)
    requires Index(e) == Index(f)
    ensures e.port == f.port && e.network + "://" + e.ip == f.network + "://" + f.ip
  {
    IntegerHasNo(e.port, ':');
    IntegerHasNo(f.port, ':');
    LastSplit(e.network + "://" + e.ip, Integer(e.port), f.network + "://" + f.ip, Integer(f.port));
    IntegerInjective(e.port, f.port);
  }

  /** Endpoints whose network names hold no colon never share a key, whatever the address text. */
  lemma IndexInjective(e: Endpoint, f: Endpoint)
    requires ':' !in e.network && ':' !in f.network
    ensures Index(e) == Index(f) <==> e == f
  {
    if Index(e) == Index(f) {
      SameKeySamePort(e, f);
      assert e.network + "://" + e.ip == e.network + ":" + ("//" + e.ip);
      assert f.network + "://" + f.ip == f.network + ":" + ("//" + f.ip);
      FirstSplit(e.network, "//" + e.ip, f.network, "//" + f.ip);
      assert e.ip == ("//" + e.ip)[2..] && f.ip == ("//" + f.ip)[2..];
    }
  }

  lemma IndexForm()
    ensures Index(Endpoint("tcp", "127.0.0.1", 80)) == "tcp://127.0.0.1:80"
  {
    assert Integer(80) == "80" by { assert Integer(80) == Natural(8) + [Digit(0)]; }
  }

  /** With a colon in the network name two endpoints can share a key. */
  lemma IndexClash()
    ensures Index(Endpoint("tcp", "a://b", 1)) == Index(Endpoint("tcp://a", "b", 1))
  {
  }

  // ---- A listener map against its demands ----

  /** An open listener: TCP or UDP, on the port the operating system granted. */
  datatype Socket = Socket(tcp: bool, port: int)

  type ListenerMap = map<string, Socket>

  /** Listener keys with the port each listener really has. */
  type PortMap = map<string, int>

  function Ports(ls: ListenerMap): (ps: PortMap)
    ensures ps.Keys == ls.Keys
  {
    map key | key in ls :: ls[key].port
  }

  lemma PortsOfPut(ls: ListenerMap, key: string, l: Socket)
    ensures Ports(ls[key := l]) == Ports(ls)[key := l.port]
  {
  }

  lemma PortsOfRemove(ls: ListenerMap, key: string)
    ensures Ports(ls - {key}) == Ports(ls) - {key}
  {
  }

  datatype Demand = Demand(running: bool, key: string, port: int)

  type Demands = map<nat, Demand>

  ghost predicate Asks(d: Demand, key: string, port: int)
  {
    d.running && d.key == key && d.port == port
  }

  ghost predicate Listening(ls: PortMap, d: Demand)
  {
    d.key in ls && ls[d.key] == d.port
  }

  /** Every listener is asked for by a running app in `done`, and every such app has its listener. */
  ghost predicate AgreeOn(ds: Demands, ls: PortMap, done: set<nat>)
  {
    (forall key :: key in ls ==> exists id :: id in ds && id in done && Asks(ds[id], key, ls[key])) &&
    (forall id :: id in ds && id in done && ds[id].running ==> Listening(ls, ds[id]))
  }

  lemma TakenOn(ds: Demands, ls: PortMap, done: set<nat>, id: nat)
    requires AgreeOn(ds, ls, done) && id in ds && id !in done
    requires ds[id].running && ds[id].key in ls ==> ls[ds[id].key] == ds[id].port
    ensures AgreeOn(ds, if ds[id].running then ls[ds[id].key := ds[id].port] else ls, done + {id})
  {
  }

  lemma OutsideIsFree(ds: Demands, ds': Demands, ls: PortMap, done: set<nat>, id: nat)
    requires AgreeOn(ds, ls, done) && id !in done
    requires forall j :: j != id ==> (j in ds <==> j in ds') && (j in ds ==> ds[j] == ds'[j])
    ensures AgreeOn(ds', ls, done)
  {
  }

  ghost predicate SharesKey(ds: Demands, id: nat)
    requires id in ds
  {
    exists j :: j in ds && j != id && ds[j].running && ds[j].key == ds[id].key
  }

  /** Closing a running app's listener leaves the rest in agreement exactly when no other app used it. */
  lemma ReleasedIff(ds: Demands, ls: PortMap, id: nat)
    requires AgreeOn(ds, ls, ds.Keys) && id in ds
    ensures AgreeOn(ds, if ds[id].running then ls - {ds[id].key} else ls, ds.Keys - {id}) <==>
            !(ds[id].running && SharesKey(ds, id))
  {
  }

  lemma AllDone(ds: Demands, ls: PortMap, done: set<nat>)
    requires AgreeOn(ds, ls, done) && ds.Keys <= done
    ensures AgreeOn(ds, ls, ds.Keys)
  {
  }

  /** Two listener maps that agree with the same demands are the same. */
  lemma AgreedUnique(ds: Demands, ls: PortMap, ls': PortMap)
    requires AgreeOn(ds, ls, ds.Keys) && AgreeOn(ds, ls', ds.Keys)
    ensures ls == ls'
  {
  }

  /** Agreement in one line: the listener keys are the running apps' keys. */
  lemma AgreementMeans(ds: Demands, ls: PortMap)
    requires AgreeOn(ds, ls, ds.Keys)
    ensures ls.Keys == set id | id in ds && ds[id].running :: ds[id].key
  {
  }
}
