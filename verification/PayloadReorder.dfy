/** Reordering the members of objects, at any depth, never changes a verdict. */
module PayloadReorder {

  import opened Bytes
  import opened Payload
  import opened PayloadContract

  /** `p` and `q` are inverse permutations of the first `n` numbers. */
  predicate Inverses(p: seq<nat>, q: seq<nat>, n: nat) {
    && |p| == n && |q| == n
    && (forall i | 0 <= i < n :: p[i] < n && q[p[i]] == i)
    && (forall j | 0 <= j < n :: q[j] < n && p[q[j]] == j)
  }

  /** `w` is `v` with the members of each object in some order. */
  ghost predicate Reorders(v: Json, w: Json) {
    match v
    case Array(items) =>
      w.Array? && |w.items| == |items| && forall i | 0 <= i < |items| :: Reorders(items[i], w.items[i])
    case Object(members) =>
      && w.Object?
      && exists p, q :: Inverses(p, q, |members|) && |w.members| == |members| && forall i | 0 <= i < |members| ::
           members[i].name == w.members[p[i]].name && Reorders(members[i].value, w.members[p[i]].value)
    case _ => v == w
  }

  /** Each member of `ms` stands in `ws` at its place under `p`, possibly reordered inside. */
  ghost predicate Moved(ms: seq<Member>, ws: seq<Member>, p: seq<nat>, q: seq<nat>) {
    && Inverses(p, q, |ms|) && |ws| == |ms|
    && forall i | 0 <= i < |ms| :: ms[i].name == ws[p[i]].name && Reorders(ms[i].value, ws[p[i]].value)
  }

  lemma MovedMembers(v: Json, w: Json) returns (p: seq<nat>, q: seq<nat>)
    requires v.Object? && Reorders(v, w)
    ensures w.Object? && Moved(v.members, w.members, p, q)
  {
    p, q :| Inverses(p, q, |v.members|) && |w.members| == |v.members| && forall i | 0 <= i < |v.members| ::
      v.members[i].name == w.members[p[i]].name && Reorders(v.members[i].value, w.members[p[i]].value);
  }

  lemma DistinctMoved(ms: seq<Member>, ws: seq<Member>, p: seq<nat>, q: seq<nat>)
    requires Moved(ms, ws, p, q)
    ensures Distinct(ms) <==> Distinct(ws)
  {
    hide Reorders, Distinct;
    DistinctAt(ms);
    DistinctAt(ws);
    if Distinct(ms) {
      forall j, k | 0 <= j < k < |ws| ensures ws[j].name != ws[k].name {
        assert ms[q[j]].name == ws[p[q[j]]].name && ms[q[k]].name == ws[p[q[k]]].name;
        assert q[j] != q[k];
      }
    }
    if Distinct(ws) {
      forall j, k | 0 <= j < k < |ms| ensures ms[j].name != ms[k].name {
        assert p[j] != p[k];
      }
    }
  }

  lemma {:induction false} ReorderAccepts(v: Json, w: Json, depth: nat)
    requires Reorders(v, w)
    ensures Accepts(v, depth) <==> Accepts(w, depth)
    decreases v
  {
    hide Distinct;
    match v
    case Array(items) =>
      forall i | 0 <= i < |items| ensures Accepts(items[i], depth + 1) <==> Accepts(w.items[i], depth + 1) {
        ReorderAccepts(items[i], w.items[i], depth + 1);
      }
    case Object(ms) =>
      var p, q := MovedMembers(v, w);
      forall i | 0 <= i < |ms| ensures Accepts(ms[i].value, depth + 1) <==> Accepts(w.members[p[i]].value, depth + 1) {
        ReorderAccepts(ms[i].value, w.members[p[i]].value, depth + 1);
      }
      DistinctMoved(ms, w.members, p, q);
      AllMoved(ms, w.members, p, q, depth + 1);
    case _ =>
  }

  lemma AllMoved(ms: seq<Member>, ws: seq<Member>, p: seq<nat>, q: seq<nat>, depth: nat)
    requires Moved(ms, ws, p, q)
    requires forall i | 0 <= i < |ms| :: Accepts(ms[i].value, depth) <==> Accepts(ws[p[i]].value, depth)
    ensures (forall i | 0 <= i < |ms| :: Accepts(ms[i].value, depth))
      <==> (forall j | 0 <= j < |ws| :: Accepts(ws[j].value, depth))
  {
    hide Reorders, Accepts;
    if forall i | 0 <= i < |ms| :: Accepts(ms[i].value, depth) {
      forall j | 0 <= j < |ws| ensures Accepts(ws[j].value, depth) {
        assert Accepts(ms[q[j]].value, depth) && p[q[j]] == j;
      }
    }
  }

  lemma FieldsMoved(ms: seq<Member>, ws: seq<Member>, p: seq<nat>, q: seq<nat>)
    requires Moved(ms, ws, p, q) && Distinct(ms)
    ensures Fields(ms) == Fields(ws)
  {
    hide Fields, Distinct;
    DistinctMoved(ms, ws, p, q);
    forall name ensures name in Fields(ms) <==> name in Fields(ws) {
      FieldsHave(ms, name);
      FieldsHave(ws, name);
      HasMoved(ms, ws, p, q, name);
    }
    forall name | name in Fields(ms) ensures Fields(ms)[name] == Fields(ws)[name] {
      FieldsHave(ms, name);
      var i :| 0 <= i < |ms| && ms[i].name == name;
      FieldsAt(ms, i);
      FieldsAt(ws, p[i]);
      SameType(ms[i].value, ws[p[i]].value);
    }
  }

  lemma HasMoved(ms: seq<Member>, ws: seq<Member>, p: seq<nat>, q: seq<nat>, name: Name)
    requires Moved(ms, ws, p, q)
    ensures Has(ms, name) <==> Has(ws, name)
  {
    hide Reorders;
    if Has(ms, name) {
      var i :| 0 <= i < |ms| && ms[i].name == name;
      assert ws[p[i]].name == name;
    }
    if Has(ws, name) {
      var j :| 0 <= j < |ws| && ws[j].name == name;
      assert ms[q[j]].name == ws[p[q[j]]].name == name;
    }
  }

  lemma SameType(v: Json, w: Json)
    requires Reorders(v, w)
    ensures TypeOf(v) == TypeOf(w)
  {
  }

  lemma ReorderDocument(v: Json, w: Json)
    requires Reorders(v, w)
    ensures DocumentFields(v) == DocumentFields(w)
  {
    hide Fields, Distinct, Accepts, Reorders;
    SameType(v, w);
    if v.Object? {
      var p, q := MovedMembers(v, w);
      DistinctMoved(v.members, w.members, p, q);
      forall i | 0 <= i < |v.members| ensures Accepts(v.members[i].value, 2) <==> Accepts(w.members[p[i]].value, 2) {
        ReorderAccepts(v.members[i].value, w.members[p[i]].value, 2);
      }
      AllMoved(v.members, w.members, p, q, 2);
      if Distinct(v.members) { FieldsMoved(v.members, w.members, p, q); }
    }
  }

  /** The same verdict, and the same error, for every reordering of members at any depth. */
  lemma ReorderKeepsVerdict(contract: Contract, v: Json, w: Json, a: seq<Byte>, b: seq<Byte>,
                            r: Result<seq<Byte>, PayloadError>, s: Result<seq<Byte>, PayloadError>)
    requires Reorders(v, w) && |a| == |b|
    requires Decides(contract, a, Some(v), r) && Decides(contract, b, Some(w), s)
    ensures if r.Ok? then r == Ok(a) && s == Ok(b) else s == r
  {
    hide Judges, DocumentFields, Reorders;
    ReorderDocument(v, w);
    if |a| <= contract.limit && DocumentFields(v).Some? {
      var fields := DocumentFields(v).value;
      var x :| Judges(contract, fields, x) && r == if x.Some? then Err(x.value) else Ok(a);
      var y :| Judges(contract, fields, y) && s == if y.Some? then Err(y.value) else Ok(b);
      JudgesIsFunctional(contract, fields, x, y);
    }
  }

  // ---------------------------------------------------------------- reorderings there are

  lemma {:induction false} ReordersSelf(v: Json)
    ensures Reorders(v, v)
    decreases v
  {
    match v
    case Array(items) =>
      forall i | 0 <= i < |items| ensures Reorders(items[i], items[i]) { ReordersSelf(items[i]); }
    case Object(members) =>
      var same: seq<nat> := seq(|members|, i => i);
      forall i | 0 <= i < |members|
        ensures Reorders(members[i].value, members[i].value)
      {
        ReordersSelf(members[i].value);
      }
      assert Inverses(same, same, |members|);
    case _ =>
  }

  /** Swapping two members of an object is a reordering. */
  lemma SwapReorders(members: seq<Member>, a: nat, b: nat)
    requires a < |members| && b < |members|
    ensures Reorders(Object(members), Object(members[a := members[b]][b := members[a]]))
  {
    var n := |members|;
    var p: seq<nat> := seq(n, i => if i == a then b else if i == b then a else i);
    forall i | 0 <= i < n ensures Reorders(members[i].value, members[i].value) { ReordersSelf(members[i].value); }
    assert Inverses(p, p, n);
  }
}
