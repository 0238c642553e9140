/** The in-memory grant policy: a nested map without empty levels standing for a set of triples. */
module Grants {

  import opened Bytes

  type Id = seq<Byte>

  datatype Triple = Triple(principal: Id, adapter: Id, capability: Id)

  type Nested = map<Id, map<Id, set<Id>>>

  datatype Denial = NotGranted | PolicyUnavailable
  datatype Decision = Allow | Deny(reason: Denial)

  predicate Contains(g: Nested, t: Triple) {
    t.principal in g && t.adapter in g[t.principal] && t.capability in g[t.principal][t.adapter]
  }

  /** No principal without adapters, no adapter without capabilities. */
  predicate Pruned(g: Nested) {
    forall p | p in g :: g[p] != map[] && forall a | a in g[p] :: g[p][a] != {}
  }

  ghost function Triples(g: Nested): set<Triple> {
    set p, a, c | p in g && a in g[p] && c in g[p][a] :: Triple(p, a, c)
  }

  lemma InTriples(g: Nested, t: Triple)
    ensures t in Triples(g) <==> Contains(g, t)
  {
  }

  function Adapters(g: Nested, p: Id): map<Id, set<Id>> { if p in g then g[p] else map[] }

  function Capabilities(adapters: map<Id, set<Id>>, a: Id): set<Id> { if a in adapters then adapters[a] else {} }

  function Granted(g: Nested, t: Triple): Nested {
    var adapters := Adapters(g, t.principal);
    g[t.principal := adapters[t.adapter := Capabilities(adapters, t.adapter) + {t.capability}]]
  }

  /** Removes the capability, then each level it leaves empty. */
  function Revoked(g: Nested, t: Triple): Nested {
    if t.principal !in g || t.adapter !in g[t.principal] then g
    else
      var left := g[t.principal][t.adapter] - {t.capability};
      var adapters := if left == {} then g[t.principal] - {t.adapter} else g[t.principal][t.adapter := left];
      if adapters == map[] then g - {t.principal} else g[t.principal := adapters]
  }

  function Evaluated(g: Nested, poisoned: bool, t: Triple): Decision {
    if poisoned then Deny(PolicyUnavailable) else if Contains(g, t) then Allow else Deny(NotGranted)
  }

  // ---------------------------------------------------------------- the object

  class GrantPolicy {

    var grants: Nested
    /** A writer panicked while it held the lock. */
    var poisoned: bool

    constructor ()
      ensures grants == map[] && !poisoned
    {
      grants, poisoned := map[], false;
    }

    /** Reports whether the set of grants changed, or nothing when the lock is poisoned. */
    method Grant(t: Triple) returns (changed: Option<bool>)
      modifies this
      ensures poisoned == old(poisoned)
      ensures old(poisoned) ==> changed == None && grants == old(grants)
      ensures !old(poisoned) ==> grants == Granted(old(grants), t) && changed == Some(!Contains(old(grants), t))
    {
      if poisoned { return None; }
      if t.principal !in grants { grants := grants[t.principal := map[]]; }
      var adapters := grants[t.principal];
      if t.adapter !in adapters { adapters := adapters[t.adapter := {}]; }
      changed := Some(t.capability !in adapters[t.adapter]);
      adapters := adapters[t.adapter := adapters[t.adapter] + {t.capability}];
      assert adapters == Adapters(old(grants), t.principal)[t.adapter := adapters[t.adapter]];
      grants := grants[t.principal := adapters];
      assert grants == old(grants)[t.principal := adapters];
    }

    method Revoke(t: Triple) returns (changed: Option<bool>)
      modifies this
      ensures poisoned == old(poisoned)
      ensures old(poisoned) ==> changed == None && grants == old(grants)
      ensures !old(poisoned) ==> grants == Revoked(old(grants), t) && changed == Some(Contains(old(grants), t))
    {
      if poisoned { return None; }
      if t.principal !in grants { return Some(false); }
      var adapters := grants[t.principal];
      if t.adapter !in adapters { return Some(false); }
      changed := Some(t.capability in adapters[t.adapter]);
      adapters := adapters[t.adapter := adapters[t.adapter] - {t.capability}];
      if adapters[t.adapter] == {} { adapters := adapters - {t.adapter}; }
      assert adapters == if old(grants)[t.principal][t.adapter] - {t.capability} == {}
        then old(grants)[t.principal] - {t.adapter}
        else old(grants)[t.principal][t.adapter := old(grants)[t.principal][t.adapter] - {t.capability}];
      if adapters == map[] { grants := grants - {t.principal}; } else { grants := grants[t.principal := adapters]; }
    }

    method Evaluate(t: Triple) returns (d: Decision)
      ensures d == Evaluated(grants, poisoned, t)
    {
      if poisoned { return Deny(PolicyUnavailable); }
      if t.principal !in grants || t.adapter !in grants[t.principal] { return Deny(NotGranted); }
      d := if t.capability in grants[t.principal][t.adapter] then Allow else Deny(NotGranted);
    }
  }

  // ---------------------------------------------------------------- the nested map refines the set

  lemma GrantedContains(g: Nested, t: Triple, u: Triple)
    ensures Contains(Granted(g, t), u) <==> u == t || Contains(g, u)
  {
    var after := Granted(g, t)[t.principal];
    if u.principal == t.principal {
      assert Contains(Granted(g, t), u) <==> u.adapter in after && u.capability in after[u.adapter];
      if u.adapter == t.adapter {
        assert u.capability in after[u.adapter]
          <==> u == t || u.capability in Capabilities(Adapters(g, t.principal), t.adapter);
      }
    }
  }

  lemma RevokedContains(g: Nested, t: Triple, u: Triple)
    ensures Contains(Revoked(g, t), u) <==> u != t && Contains(g, u)
  {
    if u.principal == t.principal && t.principal in g && t.adapter in g[t.principal] {
      var left := g[t.principal][t.adapter] - {t.capability};
      var adapters := if left == {} then g[t.principal] - {t.adapter} else g[t.principal][t.adapter := left];
      assert Contains(Revoked(g, t), u) <==> u.adapter in adapters && u.capability in adapters[u.adapter];
      if u.adapter == t.adapter {
        assert u.adapter in adapters && u.capability in adapters[u.adapter] <==> u.capability in left;
      }
    }
  }

  lemma GrantRefines(g: Nested, t: Triple)
    ensures Triples(Granted(g, t)) == Triples(g) + {t}
    ensures Pruned(g) ==> Pruned(Granted(g, t))
  {
    hide Granted, Triples, Contains;
    forall u ensures u in Triples(Granted(g, t)) <==> u in Triples(g) + {t} {
      InTriples(Granted(g, t), u);
      InTriples(g, u);
      GrantedContains(g, t, u);
    }
    if Pruned(g) { GrantedPruned(g, t); }
  }

  lemma GrantedPruned(g: Nested, t: Triple)
    requires Pruned(g)
    ensures Pruned(Granted(g, t))
  {
    var g' := Granted(g, t);
    assert t.capability in g'[t.principal][t.adapter];
    assert t.adapter in g'[t.principal];
  }

  lemma RevokeRefines(g: Nested, t: Triple)
    ensures Triples(Revoked(g, t)) == Triples(g) - {t}
    ensures Pruned(g) ==> Pruned(Revoked(g, t))
  {
    hide Revoked, Triples, Contains;
    forall u ensures u in Triples(Revoked(g, t)) <==> u in Triples(g) - {t} {
      InTriples(Revoked(g, t), u);
      InTriples(g, u);
      RevokedContains(g, t, u);
    }
    if Pruned(g) { RevokedPruned(g, t); }
  }

  lemma RevokedPruned(g: Nested, t: Triple)
    requires Pruned(g)
    ensures Pruned(Revoked(g, t))
  {
  }

  /** A pruned map is determined by its triples: no two of them stand for one set. */
  lemma PrunedIsCanonical(g: Nested, h: Nested)
    requires Pruned(g) && Pruned(h) && Triples(g) == Triples(h)
    ensures g == h
  {
    hide Triples;
    forall t ensures Contains(g, t) <==> Contains(h, t) { InTriples(g, t); InTriples(h, t); }
    LevelsIncluded(g, h);
    LevelsIncluded(h, g);
    forall p | p in g ensures g[p] == h[p] {
      forall a | a in g[p] ensures g[p][a] == h[p][a] {
        forall c ensures c in g[p][a] <==> c in h[p][a] {
          assert Contains(g, Triple(p, a, c)) <==> Contains(h, Triple(p, a, c));
        }
      }
      assert g[p].Keys == h[p].Keys;
    }
    assert g.Keys == h.Keys;
  }

  lemma LevelsIncluded(g: Nested, h: Nested)
    requires Pruned(g) && forall t :: Contains(g, t) ==> Contains(h, t)
    ensures forall p | p in g :: p in h && forall a | a in g[p] :: a in h[p]
  {
    forall p, a | p in g && a in g[p] ensures p in h && a in h[p] {
      var c :| c in g[p][a];
      assert Contains(g, Triple(p, a, c));
    }
    forall p | p in g ensures p in h {
      var a :| a in g[p];
    }
  }

  /** Revoking a fresh grant gives back the very map there was before. */
  lemma RevokeUndoesGrant(g: Nested, t: Triple)
    requires Pruned(g) && !Contains(g, t)
    ensures Revoked(Granted(g, t), t) == g
  {
    hide Granted, Revoked, Triples, Contains;
    InTriples(g, t);
    GrantRefines(g, t);
    RevokeRefines(Granted(g, t), t);
    assert Triples(g) + {t} - {t} == Triples(g);
    PrunedIsCanonical(Revoked(Granted(g, t), t), g);
  }
}
