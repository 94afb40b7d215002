// gateway/proxy_router.go: the route table kept in a search tree.

module ProxyRouter {
  import opened Words
  import opened Cidr
  import opened RouteTable
  import opened RouteTree

  class ProxyRouter {
    var data: Tree

    ghost predicate Valid()
      reads this
    {
      Ordered(data) && WellFormed(Contents(data))
    }

    ghost function Table(): Table
      requires Valid()
      reads this
    {
      Contents(data)
    }

    constructor ()
      ensures Valid() && Table() == map[]
    {
      data := Leaf;
    }

    method AddRoute(net: IpNet, dialer: Dialer) returns (ok: bool)
      requires Valid()
      modifies this
      ensures Valid()
      ensures ok <==> Accepts(old(Table()), GetCidrIntRange(net))
      ensures Table() == WithRoute(old(Table()), GetCidrIntRange(net), dialer)
    {
      var range := GetCidrIntRange(net);
      RouteCases(Table(), range);
      var found := Find(data, range.lo);
      if found == None {
        ok := Add(range.lo, RouteItem(range.hi, dialer));
        return;
      }
      var ri := found.value;
      if ri.max != range.hi {
        return false;
      }
      assert WithRoute(Table(), range, dialer) == Table()[range.lo := RouteItem(range.hi, dialer)];
      data := Put(data, range.lo, ri.(dialer := dialer));
      return true;
    }

    method DelRoute(net: IpNet)
      requires Valid()
      modifies this
      ensures Valid() && Table() == WithoutRoute(old(Table()), GetCidrIntRange(net))
    {
      data := Remove(data, GetCidrIntRange(net).lo);
    }

    /** Inserts a range whose start is not stored yet, unless it meets a stored range. */
    method Add(key: nat, value: RouteItem) returns (ok: bool)
      requires Valid()
      modifies this
      ensures Valid()
      ensures ok <==> key <= value.max && !MeetsSome(old(Table()), Range(key, value.max))
      ensures Table() == if ok then old(Table())[key := value] else old(Table())
    {
      var range := Range(key, value.max);
      if key > value.max {
        return false;
      }
      OverlapWalkComplete(data, range);
      var cur := data;
      while cur != Leaf
        invariant WalkMeets(cur, range) == WalkMeets(data, range)
        decreases cur
      {
        if range.lo > cur.value.max {
          cur := cur.right;
          continue;
        }
        if range.hi < cur.key {
          cur := cur.left;
          continue;
        }
        return false;
      }
      ClearRangeTaken(Table(), range, value.dialer);
      data := Put(data, key, value);
      return true;
    }

    method Get(key: nat) returns (d: Option<Dialer>)
      requires Valid()
      ensures forall x :: d == Some(x) <==> Routes(Table(), key, x)
    {
      GetWalkIsScan(data, key);
      var n := data;
      while n != Leaf
        invariant WalkGet(n, key) == WalkGet(data, key)
        decreases n
      {
        if n.key <= key <= n.value.max {
          return Some(n.value.dialer);
        } else if key < n.key {
          n := n.left;
        } else {
          n := n.right;
        }
      }
      return None;
    }
  }
}
