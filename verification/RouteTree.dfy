// The search tree that holds the route table, and the router's two walks as functions.

module RouteTree {
  import opened Words
  import opened Cidr
  import opened RouteTable

  datatype Tree = Leaf | Node(left: Tree, key: nat, value: RouteItem, right: Tree)

  ghost function Contents(t: Tree): Entries
  {
    match t
    case Leaf => map[]
    case Node(l, k, v, r) => Joined(Contents(l), k, v, Contents(r))
  }

  ghost function Joined(l: Entries, k: nat, v: RouteItem, r: Entries): Entries
  {
    l + r + map[k := v]
  }

  /** Search order; nothing is said about balance. */
  ghost predicate Ordered(t: Tree)
  {
    match t
    case Leaf => true
    case Node(l, k, _, r) =>
      Ordered(l) && Ordered(r) &&
      (forall j :: j in Contents(l) ==> j < k) && (forall j :: j in Contents(r) ==> k < j)
  }

  function Find(t: Tree, k: nat): (v: Option<RouteItem>)
    requires Ordered(t)
    ensures v == if k in Contents(t) then Some(Contents(t)[k]) else None
  {
    match t
    case Leaf => None
    case Node(l, key, value, r) =>
      if k == key then Some(value) else if k < key then Find(l, k) else Find(r, k)
  }

  function Put(t: Tree, k: nat, v: RouteItem): (t': Tree)
    requires Ordered(t)
    ensures Ordered(t') && Contents(t') == Contents(t)[k := v]
  {
    match t
    case Leaf => Node(Leaf, k, v, Leaf)
    case Node(l, key, value, r) =>
      JoinedPutLeft(Contents(l), key, value, Contents(r), k, v);
      JoinedPutRight(Contents(l), key, value, Contents(r), k, v);
      if k == key then Node(l, k, v, r)
      else if k < key then Node(Put(l, k, v), key, value, r)
      else Node(l, key, value, Put(r, k, v))
  }

  lemma JoinedPutLeft(l: Entries, key: nat, value: RouteItem, r: Entries, k: nat, v: RouteItem)
    ensures k == key ==> Joined(l, key, v, r) == Joined(l, key, value, r)[k := v]
    ensures k != key && k !in r ==> Joined(l[k := v], key, value, r) == Joined(l, key, value, r)[k := v]
  {
  }

  lemma JoinedPutRight(l: Entries, key: nat, value: RouteItem, r: Entries, k: nat, v: RouteItem)
    ensures k != key ==> Joined(l, key, value, r[k := v]) == Joined(l, key, value, r)[k := v]
  {
  }

  function Remove(t: Tree, k: nat): (t': Tree)
    requires Ordered(t)
    ensures Ordered(t') && Contents(t') == Contents(t) - {k}
  {
    match t
    case Leaf => Leaf
    case Node(l, key, value, r) =>
      JoinedRemoveLeft(Contents(l), key, value, Contents(r), k);
      JoinedRemoveRight(Contents(l), key, value, Contents(r), k);
      JoinedRemoveRoot(Contents(l), key, value, Contents(r));
      if k < key then Node(Remove(l, k), key, value, r)
      else if key < k then Node(l, key, value, Remove(r, k))
      else if r == Leaf then l
      else
        var (m, v, rest) := RemoveMin(r);
        JoinedMin(Contents(l), key, value, Contents(r), m, v);
        Node(l, m, v, rest)
  }

  lemma JoinedRemoveLeft(l: Entries, key: nat, value: RouteItem, r: Entries, k: nat)
    ensures k != key && k !in r ==> Joined(l - {k}, key, value, r) == Joined(l, key, value, r) - {k}
  {
  }

  lemma JoinedRemoveRight(l: Entries, key: nat, value: RouteItem, r: Entries, k: nat)
    ensures k != key && k !in l ==> Joined(l, key, value, r - {k}) == Joined(l, key, value, r) - {k}
  {
  }

  lemma JoinedRemoveRoot(l: Entries, key: nat, value: RouteItem, r: Entries)
    ensures key !in l && key !in r ==> Joined(l, key, value, r) - {key} == l + r
    ensures r == map[] ==> l + r == l
  {
  }

  lemma JoinedMin(l: Entries, key: nat, value: RouteItem, r: Entries, m: nat, v: RouteItem)
    requires m in r && r[m] == v && m !in l
    ensures Joined(l, m, v, r - {m}) == l + r
  {
  }

  function RemoveMin(t: Tree): (result: (nat, RouteItem, Tree))
    requires Ordered(t) && t.Node?
    ensures result.0 in Contents(t) && result.1 == Contents(t)[result.0]
    ensures forall j :: j in Contents(t) ==> result.0 <= j
    ensures Ordered(result.2) && Contents(result.2) == Contents(t) - {result.0}
  {
    if t.left == Leaf then
      JoinedLeaf(t.key, t.value, Contents(t.right));
      (t.key, t.value, t.right)
    else
      var (m, v, rest) := RemoveMin(t.left);
      JoinedRemoveLeft(Contents(t.left), t.key, t.value, Contents(t.right), m);
      (m, v, Node(rest, t.key, t.value, t.right))
  }

  lemma JoinedLeaf(k: nat, v: RouteItem, r: Entries)
    requires k !in r
    ensures Joined(map[], k, v, r) - {k} == r
  {
  }

  /** The overlap walk of proxyRouter.add. */
  predicate WalkMeets(t: Tree, r: Range)
  {
    match t
    case Leaf => false
    case Node(left, key, value, right) =>
      if r.lo > value.max then WalkMeets(right, r)
      else if r.hi < key then WalkMeets(left, r)
      else true
  }

  /** The stabbing walk of proxyRouter.get. */
  function WalkGet(t: Tree, address: nat): Option<Dialer>
  {
    match t
    case Leaf => None
    case Node(left, key, value, right) =>
      if key <= address <= value.max then Some(value.dialer)
      else if address < key then WalkGet(left, address)
      else WalkGet(right, address)
  }

  /** The single root-to-leaf overlap walk finds an overlap whenever the table holds one. */
  lemma {:induction false} OverlapWalkComplete(t: Tree, r: Range)
    requires Ordered(t) && WellFormed(Contents(t)) && r.lo <= r.hi
    ensures WalkMeets(t, r) <==> MeetsSome(Contents(t), r)
  {
    if t.Node? {
      SubtreesWellFormed(t);
      var c := Contents(t);
      if r.lo > t.value.max {
        OverlapWalkComplete(t.right, r);
        OverlapOnOneSide(t, Contents(t.right), r);
      } else if r.hi < t.key {
        OverlapWalkComplete(t.left, r);
        OverlapOnOneSide(t, Contents(t.left), r);
      } else {
        assert Meets(StoredRange(c, t.key), r);
      }
    }
  }

  lemma SubtreesWellFormed(t: Tree)
    requires t.Node? && Ordered(t) && WellFormed(Contents(t))
    ensures WellFormed(Contents(t.left)) && WellFormed(Contents(t.right))
    ensures Contents(t)[t.key] == t.value
    ensures forall k :: k in Contents(t.left) ==> Contents(t)[k] == Contents(t.left)[k] && Contents(t)[k].max < t.key
    ensures forall k :: k in Contents(t.right) ==> Contents(t)[k] == Contents(t.right)[k] && t.value.max < k
  {
    var c, l, r := Contents(t), Contents(t.left), Contents(t.right);
    assert c == Joined(l, t.key, t.value, r);
    assert forall k :: k in l ==> c[k] == l[k];
    assert forall k :: k in r ==> c[k] == r[k];
  }

  lemma OverlapOnOneSide(t: Tree, sub: Entries, r: Range)
    requires t.Node? && r.lo <= r.hi
    requires forall k :: k in sub ==> k in Contents(t) && Contents(t)[k] == sub[k]
    requires forall k :: k in Contents(t) && k !in sub ==> !Meets(StoredRange(Contents(t), k), r)
    ensures MeetsSome(Contents(t), r) <==> MeetsSome(sub, r)
  {
  }

  /** The stabbing walk is the linear scan: it returns the dialer of the one range holding the address. */
  lemma {:induction false} GetWalkIsScan(t: Tree, address: nat)
    requires Ordered(t) && WellFormed(Contents(t))
    ensures forall d :: WalkGet(t, address) == Some(d) <==> Routes(Contents(t), address, d)
  {
    if t.Node? {
      SubtreesWellFormed(t);
      var c := Contents(t);
      forall d
        ensures WalkGet(t, address) == Some(d) <==> Routes(c, address, d)
      {
        if t.key <= address <= t.value.max {
          assert c[t.key] == t.value;
          if Routes(c, address, d) {
            var k :| k in c && k <= address <= c[k].max && c[k].dialer == d;
            assert k == t.key;
          }
        } else if address < t.key {
          GetWalkIsScan(t.left, address);
          if Routes(c, address, d) {
            var k :| k in c && k <= address <= c[k].max && c[k].dialer == d;
            assert k in Contents(t.left);
          }
        } else {
          GetWalkIsScan(t.right, address);
          if Routes(c, address, d) {
            var k :| k in c && k <= address <= c[k].max && c[k].dialer == d;
            assert k in Contents(t.right);
          }
        }
      }
    }
  }

  /** Answers depend on the stored routes only, never on the tree's shape or insertion history. */
  lemma ShapeIndependent(t: Tree, u: Tree)
    requires Ordered(t) && Ordered(u) && Contents(t) == Contents(u) && WellFormed(Contents(t))
    ensures forall address: nat :: WalkGet(t, address) == WalkGet(u, address)
    ensures forall r: Range :: r.lo <= r.hi ==> WalkMeets(t, r) == WalkMeets(u, r)
  {
    forall address: nat
      ensures WalkGet(t, address) == WalkGet(u, address)
    {
      GetWalkIsScan(t, address);
      GetWalkIsScan(u, address);
      if WalkGet(t, address).Some? {
        assert WalkGet(u, address) == Some(WalkGet(t, address).value);
      } else if WalkGet(u, address).Some? {
        assert Routes(Contents(t), address, WalkGet(u, address).value);
      }
    }
    forall r: Range | r.lo <= r.hi
      ensures WalkMeets(t, r) == WalkMeets(u, r)
    {
      OverlapWalkComplete(t, r);
      OverlapWalkComplete(u, r);
    }
  }
}
