// The abstract route table: disjoint ranges, each with a dialer.

module RouteTable {
  import opened Words
  import opened Cidr

  /** socks5.PeerWithAuth as handed to socks5.NewDialer. */
  datatype Dialer = Dialer(peer: string, userName: seq<byte>, password: seq<byte>)

  datatype RouteItem = RouteItem(max: nat, dialer: Dialer)

  type Entries = map<nat, RouteItem>

  type Table = t: Entries | WellFormed(t)

  function StoredRange(t: Entries, k: nat): Range
    requires k in t
  {
    Range(k, t[k].max)
  }

  /** Stored ranges are non-empty and pairwise disjoint. */
  ghost predicate WellFormed(t: Entries)
  {
    (forall k :: k in t ==> k <= t[k].max) &&
    forall j, k :: j in t && k in t && j < k ==> t[j].max < k
  }

  ghost predicate MeetsSome(t: Entries, r: Range)
  {
    exists k :: k in t && Meets(StoredRange(t, k), r)
  }

  /** A route is taken exactly when every stored range it meets is that same range. */
  ghost predicate Accepts(t: Entries, r: Range)
  {
    r.lo <= r.hi && forall k :: k in t && Meets(StoredRange(t, k), r) ==> StoredRange(t, k) == r
  }

  ghost function WithRoute(t: Table, r: Range, d: Dialer): Table
  {
    if Accepts(t, r) then AcceptedRoute(t, r); t[r.lo := RouteItem(r.hi, d)] else t
  }

  lemma AcceptedRoute(t: Table, r: Range)
    requires Accepts(t, r)
    ensures forall k :: k in t && k < r.lo ==> t[k].max < r.lo
    ensures forall k :: k in t && r.lo < k ==> r.hi < k
  {
  }

  /** A non-empty range that meets nothing is taken. */
  lemma ClearRangeTaken(t: Table, r: Range, d: Dialer)
    requires r.lo <= r.hi && !MeetsSome(t, r)
    ensures Accepts(t, r) && WithRoute(t, r, d) == t[r.lo := RouteItem(r.hi, d)]
  {
  }

  /** The route's start alone decides which of the three branches of addRoute is taken. */
  lemma RouteCases(t: Table, r: Range)
    ensures r.lo !in t ==> (Accepts(t, r) <==> r.lo <= r.hi && !MeetsSome(t, r))
    ensures r.lo in t ==> (Accepts(t, r) <==> t[r.lo].max == r.hi)
  {
    if r.lo in t {
      assert StoredRange(t, r.lo) == Range(r.lo, t[r.lo].max);
      assert r.lo <= r.hi ==> Meets(StoredRange(t, r.lo), r);
      if t[r.lo].max == r.hi {
        forall k | k in t && Meets(StoredRange(t, k), r)
          ensures k == r.lo
        {
        }
      }
    }
  }

  ghost function WithoutRoute(t: Table, r: Range): Table
  {
    t - {r.lo}
  }

  /** d is the dialer of a stored range holding the address. */
  ghost predicate Routes(t: Entries, address: nat, d: Dialer)
  {
    exists k :: k in t && k <= address <= t[k].max && t[k].dialer == d
  }

  /** A route that is taken sends exactly its own range to the new dialer, in place of whatever was there before; a
      refused one changes nothing. */
  lemma RoutedAfterAdd(t: Table, r: Range, d: Dialer, address: nat, x: Dialer)
    ensures Routes(WithRoute(t, r, d), address, x) <==>
            if Accepts(t, r) && r.lo <= address <= r.hi then x == d else Routes(t, address, x)
  {
    if Accepts(t, r) {
      var t' := WithRoute(t, r, d);
      AcceptedRoute(t, r);
      if r.lo <= address <= r.hi {
        assert t'[r.lo] == RouteItem(r.hi, d);
      } else {
        OutsideUnchanged(t, r, RouteItem(r.hi, d), address, x);
      }
    }
  }

  lemma OutsideUnchanged(t: Table, r: Range, item: RouteItem, address: nat, x: Dialer)
    requires Accepts(t, r) && item.max == r.hi && !(r.lo <= address <= r.hi)
    ensures Routes(t[r.lo := item], address, x) <==> Routes(t, address, x)
  {
    RouteCases(t, r);
    var t' := t[r.lo := item];
    if k :| k in t && k <= address <= t[k].max && t[k].dialer == x {
      assert k in t' && t'[k] == t[k];
    }
  }

  /** Taking a route out silences the stored range that starts where it does, and no other. */
  lemma RoutedAfterRemoval(t: Table, r: Range, address: nat, x: Dialer)
    ensures Routes(WithoutRoute(t, r), address, x) <==>
            Routes(t, address, x) && !(r.lo in t && r.lo <= address <= t[r.lo].max)
  {
    var t' := WithoutRoute(t, r);
    if k :| k in t && k <= address <= t[k].max && t[k].dialer == x && k != r.lo {
      assert k in t' && t'[k] == t[k];
    }
  }

  /** For CIDR blocks a refusal always comes from strict containment, one way or the other. */
  lemma BlockRefusedIff(t: Table, net: IpNet, blocks: map<nat, IpNet>)
    requires IsV4Block(net) && blocks.Keys == t.Keys
    requires forall k :: k in t ==> IsV4Block(blocks[k]) && StoredRange(t, k) == GetCidrIntRange(blocks[k])
    ensures var r := GetCidrIntRange(net);
            !Accepts(t, r) <==>
            exists k :: k in t && StoredRange(t, k) != r &&
                        (Within(StoredRange(t, k), r) || Within(r, StoredRange(t, k)))
  {
    var r := GetCidrIntRange(net);
    V4RangeDoesNotWrap(net);
    forall k | k in t
      ensures Meets(StoredRange(t, k), r) <==> Within(StoredRange(t, k), r) || Within(r, StoredRange(t, k))
    {
      BlocksNestOrMiss(blocks[k], net);
    }
  }
}
