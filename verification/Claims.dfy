// A route table set against the outbounds that lay claim to its entries.

module Claims {
  import opened Cidr
  import opened RouteTable

  /** What an outbound asks of the table: its range and dialer, while open. */
  datatype Claim = Claim(open: bool, range: Range, dialer: Dialer)

  type Claims = map<nat, Claim>

  ghost predicate Justifies(c: Claim, k: nat, item: RouteItem)
  {
    c.open && c.range == Range(k, item.max) && c.dialer == item.dialer
  }

  /** Every entry belongs to an open claim in `done`. */
  ghost predicate Backed(t: Entries, cs: Claims, done: set<nat>)
  {
    forall k :: k in t ==> exists id :: id in cs && id in done && Justifies(cs[id], k, t[k])
  }

  /** Every open claim in `done` has its entry. */
  ghost predicate Honoured(t: Entries, cs: Claims, done: set<nat>)
  {
    forall id :: id in cs && id in done && cs[id].open ==> Has(t, cs[id])
  }

  ghost predicate Has(t: Entries, c: Claim)
  {
    c.range.lo in t && Justifies(c, c.range.lo, t[c.range.lo])
  }

  ghost predicate Exactly(t: Entries, cs: Claims, done: set<nat>)
  {
    Backed(t, cs, done) && Honoured(t, cs, done)
  }

  /** One entry serves both claims. */
  ghost predicate Same(c: Claim, d: Claim)
  {
    c.range == d.range && c.dialer == d.dialer
  }

  /** Another open claim wants the very entry that c wants. */
  ghost predicate Doubled(cs: Claims, id: nat, c: Claim)
  {
    exists j :: j in cs && j != id && cs[j].open && Same(cs[j], c)
  }

  /** c can stand beside the other open claims: non-empty, and whichever it meets wants the same entry. */
  ghost predicate Fits(cs: Claims, id: nat, c: Claim)
  {
    c.range.lo <= c.range.hi &&
    forall j :: j in cs && j != id && cs[j].open && Meets(cs[j].range, c.range) ==> Same(cs[j], c)
  }

  ghost predicate Compatible(cs: Claims)
  {
    forall id :: id in cs && cs[id].open ==> Fits(cs, id, cs[id])
  }

  /** Another open claim starts where this one does. */
  ghost predicate StartsShared(cs: Claims, id: nat)
    requires id in cs
  {
    exists j :: j in cs && j != id && cs[j].open && cs[j].range.lo == cs[id].range.lo
  }

  /** The claim has an entry that nobody else wants. */
  ghost predicate SoleOwner(t: Entries, cs: Claims, id: nat)
    requires id in cs
  {
    cs[id].open && Has(t, cs[id]) && !Doubled(cs, id, cs[id])
  }

  // Soundness

  /** A claim may change or go once no entry starts where its range starts. */
  lemma ReplacedBacked(t: Table, cs: Claims, cs': Claims, id: nat)
    requires Backed(t, cs, cs.Keys)
    requires forall j :: j in cs && j != id ==> j in cs' && cs'[j] == cs[j]
    requires id in cs && cs[id].open ==> cs[id].range.lo !in t
    ensures Backed(t, cs', cs'.Keys)
  {
  }

  /** A claim may be forgotten with its entry left standing unless nobody else wants that entry. */
  lemma ForgottenBackedIff(t: Entries, cs: Claims, id: nat)
    requires Backed(t, cs, cs.Keys) && id in cs
    ensures Backed(t, cs - {id}, (cs - {id}).Keys) <==> !SoleOwner(t, cs, id)
  {
    var c, cs' := cs[id], cs - {id};
    if SoleOwner(t, cs, id) {
      assert forall j :: j in cs' && Justifies(cs'[j], c.range.lo, t[c.range.lo]) ==> Same(cs[j], c);
    } else {
      forall k | k in t
        ensures exists j :: j in cs' && j in cs'.Keys && Justifies(cs'[j], k, t[k])
      {
        var j :| j in cs && Justifies(cs[j], k, t[k]);
        if j == id {
          var i :| i in cs && i != id && cs[i].open && Same(cs[i], c);
          assert Justifies(cs'[i], k, t[k]);
        } else {
          assert Justifies(cs'[j], k, t[k]);
        }
      }
    }
  }

  // Exactness

  /** Only compatible claims have an exact table. */
  lemma ExactIsCompatible(t: Table, cs: Claims)
    requires Exactly(t, cs, cs.Keys)
    ensures Compatible(cs)
  {
    forall i, j | i in cs && j in cs && cs[i].open && cs[j].open && Meets(cs[j].range, cs[i].range)
      ensures Same(cs[j], cs[i])
    {
      assert Has(t, cs[i]) && Has(t, cs[j]);
    }
    forall id | id in cs && cs[id].open
      ensures cs[id].range.lo <= cs[id].range.hi
    {
      assert Has(t, cs[id]);
    }
  }

  lemma FittingIsTaken(t: Table, cs: Claims, done: set<nat>, id: nat, c: Claim)
    requires Backed(t, cs, done) && Fits(cs, id, c) && (id in cs && id in done ==> cs[id] == c)
    ensures Accepts(t, c.range)
  {
    forall k | k in t && Meets(StoredRange(t, k), c.range)
      ensures StoredRange(t, k) == c.range
    {
      var j :| j in cs && j in done && Justifies(cs[j], k, t[k]);
    }
  }

  /** Every other open claim in `done` has its entry, or wants the one that c wants. */
  ghost predicate Leaves(t: Entries, cs: Claims, done: set<nat>, id: nat, c: Claim)
  {
    forall j :: j in cs && j in done && j != id && cs[j].open ==> Has(t, cs[j]) || Same(cs[j], c)
  }

  lemma RouteGrows(t: Table, cs: Claims, done: set<nat>, id: nat)
    requires Backed(t, cs, done) && id in cs && cs[id].open
    requires Fits(cs, id, cs[id]) && Leaves(t, cs, done, id, cs[id])
    ensures Exactly(WithRoute(t, cs[id].range, cs[id].dialer), cs, done + {id})
  {
    var c := cs[id];
    FittingIsTaken(t, cs, done, id, c);
    var t' := WithRoute(t, c.range, c.dialer);
    assert Has(t', c);
    forall k | k in t'
      ensures exists j :: j in cs && j in done + {id} && Justifies(cs[j], k, t'[k])
    {
      if k == c.range.lo {
        assert Justifies(c, k, t'[k]);
      } else {
        var j :| j in cs && j in done && Justifies(cs[j], k, t[k]);
      }
    }
    forall j | j in cs && j in done && cs[j].open && j != id
      ensures Has(t', cs[j])
    {
      assert Has(t, cs[j]) && cs[j].range.lo == c.range.lo ==> Meets(cs[j].range, c.range);
    }
  }

  /** A claim and the entry at its start go: exact exactly when the others had their entries and none starts there. */
  lemma TakenAwayIff(t: Table, cs: Claims, id: nat)
    requires Backed(t, cs, cs.Keys) && id in cs
    ensures Exactly(WithoutRoute(t, cs[id].range), cs - {id}, (cs - {id}).Keys) <==>
            Honoured(t, cs, cs.Keys - {id}) && !StartsShared(cs, id)
  {
    var t', cs' := WithoutRoute(t, cs[id].range), cs - {id};
    ReplacedBacked(t', cs, cs', id);
    assert forall j :: j in cs' <==> j in cs && j != id;
    if Honoured(t', cs', cs'.Keys) {
      forall j | j in cs && j != id && cs[j].open
        ensures Has(t, cs[j]) && cs[j].range.lo != cs[id].range.lo
      {
        assert Has(t', cs'[j]);
      }
    }
  }

  /** Likewise for a claim forgotten with the table left alone. */
  lemma ForgottenIff(t: Table, cs: Claims, id: nat)
    requires Backed(t, cs, cs.Keys) && id in cs
    ensures Exactly(t, cs - {id}, (cs - {id}).Keys) <==>
            Honoured(t, cs, cs.Keys - {id}) && !SoleOwner(t, cs, id)
  {
    ForgottenBackedIff(t, cs, id);
    var cs' := cs - {id};
    assert forall j :: j in cs' <==> j in cs && j != id;
    if Honoured(t, cs', cs'.Keys) {
      forall j | j in cs && j != id && cs[j].open
        ensures Has(t, cs[j])
      {
        assert Has(t, cs'[j]);
      }
    }
  }

  /** An open claim and a closed one on the same range. */
  lemma TwinClaims(r: Range, d: Dialer, e: Dialer)
    requires r.lo <= r.hi
    ensures var cs := map[1 := Claim(true, r, d), 2 := Claim(false, r, e)];
            Exactly(WithRoute(map[], r, d), cs, cs.Keys) && StartsShared(cs, 2)
  {
    var cs: Claims := map[1 := Claim(true, r, d), 2 := Claim(false, r, e)];
    assert Accepts(map[], r);
    assert Justifies(cs[1], r.lo, RouteItem(r.hi, d));
    assert cs[1].open && cs[1].range.lo == cs[2].range.lo;
  }

  lemma ClosedIsFree(t: Entries, cs: Claims, done: set<nat>, id: nat)
    requires Exactly(t, cs, done) && id in cs && !cs[id].open
    ensures Exactly(t, cs, done + {id}) && Exactly(t, cs, done - {id})
  {
  }

  lemma OutsideIsFree(t: Entries, cs: Claims, cs': Claims, done: set<nat>, id: nat)
    requires id !in done
    requires forall j :: j != id ==> (j in cs <==> j in cs') && (j in cs ==> cs[j] == cs'[j])
    ensures Backed(t, cs, done) <==> Backed(t, cs', done)
    ensures Honoured(t, cs, done) <==> Honoured(t, cs', done)
  {
  }

  /** With an empty table an open claim can be closed and counted as served. */
  lemma NothingServed(t: Entries, cs: Claims, done: set<nat>, id: nat)
    requires Exactly(t, cs, done) && t == map[] && id in cs && cs[id].open
    ensures Exactly(t, cs[id := cs[id].(open := false)], done + {id})
  {
  }

  lemma AllDone(t: Entries, cs: Claims, done: set<nat>)
    requires Exactly(t, cs, done) && cs.Keys <= done
    ensures Exactly(t, cs, cs.Keys)
  {
  }

  /** A claim taken on board with a route asked for it. */
  lemma ServedIff(t: Table, cs: Claims, id: nat, c: Claim)
    requires Backed(t, cs, cs.Keys - {id}) && c.open
    ensures Exactly(WithRoute(t, c.range, c.dialer), cs[id := c], cs[id := c].Keys) <==>
            Fits(cs, id, c) && Leaves(t, cs, cs.Keys, id, c)
  {
    var t', cs', rest := WithRoute(t, c.range, c.dialer), cs[id := c], cs.Keys - {id};
    if Exactly(t', cs', cs'.Keys) {
      assert cs'[id] == c && Has(t', c);
      forall j | j in cs && j != id && cs[j].open
        ensures Meets(cs[j].range, c.range) ==> Same(cs[j], c)
        ensures Has(t, cs[j]) || Same(cs[j], c)
      {
        assert cs'[j] == cs[j] && Has(t', cs[j]);
      }
    }
    if Fits(cs, id, c) && Leaves(t, cs, cs.Keys, id, c) {
      OutsideIsFree(t, cs, cs', rest, id);
      RouteGrows(t, cs', rest, id);
      assert cs'.Keys == rest + {id};
    }
  }

  /** A claim taken on board with the table left alone. */
  lemma UnservedIff(t: Table, cs: Claims, id: nat, c: Claim)
    requires Backed(t, cs, cs.Keys - {id})
    ensures Exactly(t, cs[id := c], cs[id := c].Keys) <==>
            Honoured(t, cs, cs.Keys - {id}) && (c.open ==> Doubled(cs, id, c))
  {
    var cs', rest := cs[id := c], cs.Keys - {id};
    OutsideIsFree(t, cs, cs', rest, id);
    assert cs'.Keys == rest + {id};
    if Exactly(t, cs', cs'.Keys) && c.open {
      assert Has(t, cs'[id]);
      var j :| j in cs && j in rest && Justifies(cs[j], c.range.lo, t[c.range.lo]);
      assert Same(cs[j], c);
    }
  }

  /** With a route asked for, an open claim must fit beside the others; without one, another must want the same. */
  ghost predicate Admitted(cs: Claims, id: nat, c: Claim, serves: bool)
  {
    c.open ==> if serves then Fits(cs, id, c) else Doubled(cs, id, c)
  }

  /** Who else used the entry of the claim replaced has it again only if the new claim asks for the same one. */
  ghost predicate GivesBack(cs: Claims, id: nat, c: Claim, serves: bool)
    requires id in cs
  {
    cs[id].open && StartsShared(cs, id) ==> c.open && serves && Same(c, cs[id])
  }

  /** Without the entry of an open claim, just those that share it lack theirs. */
  lemma EntryDropped(t: Table, cs: Claims, id: nat)
    requires Exactly(t, cs, cs.Keys) && id in cs && cs[id].open
    ensures var t' := WithoutRoute(t, cs[id].range);
            Backed(t', cs, cs.Keys - {id}) &&
            forall j :: j in cs && j != id && cs[j].open ==>
              (Has(t', cs[j]) <==> cs[j].range.lo != cs[id].range.lo) &&
              (cs[j].range.lo == cs[id].range.lo ==> Same(cs[j], cs[id]))
  {
    assert Has(t, cs[id]);
    forall j | j in cs && j != id && cs[j].open
      ensures Has(t, cs[j])
    {
    }
  }

  /** Dropping an open claim's entry and taking its successor on board. */
  lemma ReplacedIff(t: Table, cs: Claims, id: nat, c: Claim, serves: bool, t1: Table, t2: Table)
    requires Exactly(t, cs, cs.Keys) && id in cs
    requires t1 == if cs[id].open then WithoutRoute(t, cs[id].range) else t
    requires t2 == if serves && c.open then WithRoute(t1, c.range, c.dialer) else t1
    ensures Exactly(t2, cs[id := c], cs[id := c].Keys) <==> Admitted(cs, id, c, serves) && GivesBack(cs, id, c, serves)
  {
    if cs[id].open {
      EntryDropped(t, cs, id);
    } else {
      ClosedIsFree(t, cs, cs.Keys, id);
    }
    if serves && c.open {
      ServedIff(t1, cs, id, c);
    } else {
      UnservedIff(t1, cs, id, c);
    }
  }

  /** Two tables that match the same claims exactly are the same table. */
  lemma ExactTableUnique(t: Entries, u: Entries, cs: Claims)
    requires Exactly(t, cs, cs.Keys) && Exactly(u, cs, cs.Keys)
    ensures t == u
  {
  }

  /** Under an exact table an address is routed to d exactly when an open claim of d covers it. */
  lemma RoutesIffClaimed(t: Entries, cs: Claims, address: nat, d: Dialer)
    requires Exactly(t, cs, cs.Keys)
    ensures Routes(t, address, d) <==>
            exists id :: id in cs && cs[id].open && cs[id].dialer == d && cs[id].range.lo <= address <= cs[id].range.hi
  {
  }
}
