/** Transitive closures over the workspace's dependency graph. */
module Closure {

  import opened Tally
  import Names

  type Name = Names.Name
  type Edges = map<Name, set<Name>>

  function Out(edges: Edges, n: Name): set<Name> { if n in edges then edges[n] else {} }

  /** Each node of `path` but the last has an edge to the next. */
  predicate IsPath(edges: Edges, path: seq<Name>) {
    path != [] && forall i | 0 <= i < |path| - 1 :: path[i + 1] in Out(edges, path[i])
  }

  predicate Leads(edges: Edges, path: seq<Name>, a: Name, b: Name) {
    IsPath(edges, path) && path[0] == a && path[|path| - 1] == b
  }

  ghost predicate Reaches(edges: Edges, a: Name, b: Name) { exists path :: Leads(edges, path, a, b) }

  ghost predicate ReachedFrom(edges: Edges, seeds: set<Name>, n: Name) {
    exists s :: s in seeds && Reaches(edges, s, n)
  }

  lemma ReachesSelf(edges: Edges, a: Name)
    ensures Reaches(edges, a, a)
  {
    assert Leads(edges, [a], a, a);
  }

  lemma ReachesNext(edges: Edges, a: Name, b: Name, c: Name)
    requires Reaches(edges, a, b) && c in Out(edges, b)
    ensures Reaches(edges, a, c)
  {
    var path :| Leads(edges, path, a, b);
    assert Leads(edges, path + [c], a, c);
  }

  /** A set closed under edges that holds the start of a path holds its end. */
  lemma {:induction false} ClosedHolds(edges: Edges, closed: set<Name>, path: seq<Name>, a: Name, b: Name)
    requires forall n | n in closed :: Out(edges, n) <= closed
    requires a in closed && Leads(edges, path, a, b)
    ensures b in closed
    decreases |path|
  {
    if |path| > 1 {
      assert path[1] in Out(edges, path[0]);
      var rest := path[1..];
      assert forall i | 0 <= i < |rest| - 1 :: rest[i + 1] in Out(edges, rest[i]) by {
        assert forall i | 0 <= i < |rest| :: rest[i] == path[i + 1];
      }
      ClosedHolds(edges, closed, rest, path[1], b);
    }
  }

  function Targets(edges: Edges): set<Name> { set n, m | n in edges && m in edges[n] :: m }

  lemma SnocDistinct(s: seq<Name>, n: Name)
    requires AllDistinct(s) && n !in s
    ensures AllDistinct(s + [n])
  {
  }

  function Elements(s: seq<Name>): set<Name> { set n | n in s }

  lemma SnocElements(s: seq<Name>, n: Name)
    ensures Elements(s + [n]) == Elements(s) + {n}
  {
  }

  ghost predicate AllReached(edges: Edges, seeds: set<Name>, found: set<Name>) {
    forall n | n in found :: ReachedFrom(edges, seeds, n)
  }

  /** The nodes queued so far are the nodes found, each queued once and reached from a seed. */
  ghost predicate Queue(edges: Edges, seeds: set<Name>, found: set<Name>, queued: seq<Name>) {
    && AllDistinct(queued) && found == Elements(queued) && seeds <= found
    && AllReached(edges, seeds, found)
  }

  /** How many nodes are still to be found. */
  ghost function Unfound(edges: Edges, seeds: set<Name>, found: set<Name>): nat { |seeds + Targets(edges) - found| }

  lemma ReachedNext(edges: Edges, seeds: set<Name>, n: Name, m: Name)
    requires ReachedFrom(edges, seeds, n) && m in Out(edges, n)
    ensures ReachedFrom(edges, seeds, m)
  {
    hide Reaches;
    var s :| s in seeds && Reaches(edges, s, n);
    ReachesNext(edges, s, n, m);
  }

  lemma FoundOneMore(edges: Edges, seeds: set<Name>, found: set<Name>, n: Name, m: Name)
    requires m in Out(edges, n) && m !in found
    ensures Unfound(edges, seeds, found + {m}) < Unfound(edges, seeds, found)
  {
    assert m in Targets(edges);
    var left := seeds + Targets(edges) - found;
    assert seeds + Targets(edges) - (found + {m}) == left - {m};
  }

  lemma Enqueue(edges: Edges, seeds: set<Name>, found: set<Name>, queued: seq<Name>, n: Name, m: Name)
    requires Queue(edges, seeds, found, queued) && n in found && m in Out(edges, n) && m !in found
    ensures Queue(edges, seeds, found + {m}, queued + [m])
  {
    hide ReachedFrom, AllDistinct, Out;
    SnocDistinct(queued, m);
    SnocElements(queued, m);
    ReachedNext(edges, seeds, n, m);
  }

  /** The seeds in some order, each once. */
  method Enumerate(seeds: set<Name>) returns (queue: seq<Name>)
    ensures AllDistinct(queue) && Elements(queue) == seeds
  {
    hide AllDistinct;
    queue := [];
    SnocNone();
    var remaining := seeds;
    while remaining != {}
      invariant AllDistinct(queue) && remaining <= seeds && Elements(queue) == seeds - remaining
      decreases |remaining|
    {
      var n :| n in remaining;
      SnocDistinct(queue, n);
      SnocElements(queue, n);
      queue, remaining := queue + [n], remaining - {n};
    }
  }

  lemma SnocNone()
    ensures AllDistinct<Name>([]) && Elements([]) == {}
  {
  }

  /** What `more` newly queued neighbours make of the found nodes while `remaining` are still to be looked at. */
  ghost predicate Visiting(edges: Edges, seeds: set<Name>, n: Name, found: set<Name>, queued: seq<Name>,
                           remaining: set<Name>, found': set<Name>, more: seq<Name>)
  {
    && remaining <= Out(edges, n) && n in found' && found' == found + (Out(edges, n) - remaining)
    && Queue(edges, seeds, found', queued + more)
    && if more == [] then found' == found else Unfound(edges, seeds, found') < Unfound(edges, seeds, found)
  }

  lemma VisitStart(edges: Edges, seeds: set<Name>, n: Name, found: set<Name>, queued: seq<Name>)
    requires Queue(edges, seeds, found, queued) && n in found
    ensures Visiting(edges, seeds, n, found, queued, Out(edges, n), found, [])
  {
    hide Queue, Unfound, Out;
    assert queued + [] == queued;
  }

  lemma VisitKnown(edges: Edges, seeds: set<Name>, n: Name, found: set<Name>, queued: seq<Name>,
                   remaining: set<Name>, found': set<Name>, more: seq<Name>, m: Name)
    requires Visiting(edges, seeds, n, found, queued, remaining, found', more) && m in remaining && m in found'
    ensures Visiting(edges, seeds, n, found, queued, remaining - {m}, found', more)
  {
    hide Queue, Unfound, Out;
  }

  lemma VisitNew(edges: Edges, seeds: set<Name>, n: Name, found: set<Name>, queued: seq<Name>,
                 remaining: set<Name>, found': set<Name>, more: seq<Name>, m: Name)
    requires Visiting(edges, seeds, n, found, queued, remaining, found', more) && m in remaining && m !in found'
    ensures Visiting(edges, seeds, n, found, queued, remaining - {m}, found' + {m}, more + [m])
  {
    hide Queue, Unfound, Out;
    Enqueue(edges, seeds, found', queued + more, n, m);
    FoundOneMore(edges, seeds, found', n, m);
    assert queued + (more + [m]) == queued + more + [m];
  }

  /** Queues each neighbour of `n` that is new. */
  method Visit(edges: Edges, ghost seeds: set<Name>, n: Name, found: set<Name>, pending: seq<Name>,
               ghost queued: seq<Name>)
    returns (found': set<Name>, pending': seq<Name>, ghost more: seq<Name>)
    requires Queue(edges, seeds, found, queued) && n in found
    ensures pending' == pending + more && Visiting(edges, seeds, n, found, queued, {}, found', more)
  {
    hide Queue, Visiting, Out;
    found', pending', more := found, pending, [];
    var remaining := Out(edges, n);
    VisitStart(edges, seeds, n, found, queued);
    while remaining != {}
      invariant pending' == pending + more && Visiting(edges, seeds, n, found, queued, remaining, found', more)
      decreases |remaining|
    {
      var m :| m in remaining;
      if m in found' {
        VisitKnown(edges, seeds, n, found, queued, remaining, found', more, m);
      } else {
        VisitNew(edges, seeds, n, found, queued, remaining, found', more, m);
        found', pending', more := found' + {m}, pending' + [m], more + [m];
      }
      remaining := remaining - {m};
    }
  }

  /** Every node the queue has passed has its neighbours among the found ones. */
  predicate Passed(edges: Edges, found: set<Name>, queued: seq<Name>, done: nat) {
    done <= |queued| && forall k | 0 <= k < done :: Out(edges, queued[k]) <= found
  }

  lemma PassOne(edges: Edges, found: set<Name>, queued: seq<Name>, done: nat, more: seq<Name>)
    requires Passed(edges, found, queued, done) && done < |queued|
    ensures Passed(edges, found + Out(edges, queued[done]), queued + more, done + 1)
    ensures queued[done..][1..] + more == (queued + more)[done + 1..]
  {
    hide Out;
    assert forall k | 0 <= k <= done :: (queued + more)[k] == queued[k];
  }

  /**
   * The worklist loop. It ends, it queues every node it finds exactly once, and it finds exactly the
   * nodes reached from the seeds.
   */
  method TransitiveClosure(seeds: set<Name>, edges: Edges) returns (result: set<Name>, ghost queued: seq<Name>)
    ensures forall n :: n in result <==> ReachedFrom(edges, seeds, n)
    ensures AllDistinct(queued) && Elements(queued) == result
  {
    hide Queue, Unfound, Out, AllDistinct, ReachedFrom, Passed;
    result := seeds;
    var pending := Enumerate(seeds);
    queued := pending;
    ghost var done := 0;
    StartQueue(edges, seeds, queued);
    while pending != []
      invariant Queue(edges, seeds, result, queued) && Passed(edges, result, queued, done)
      invariant done <= |queued| && pending == queued[done..]
      decreases Unfound(edges, seeds, result), |pending|
    {
      QueuedIsFound(edges, seeds, result, queued, done);
      ghost var more;
      ghost var before := result;
      result, pending, more := Visit(edges, seeds, pending[0], result, pending[1..], queued);
      assert result == before + Out(edges, queued[done]);
      PassOne(edges, before, queued, done, more);
      queued, done := queued + more, done + 1;
    }
    ClosedIsReached(edges, seeds, result, queued);
  }

  lemma StartQueue(edges: Edges, seeds: set<Name>, queued: seq<Name>)
    requires AllDistinct(queued) && Elements(queued) == seeds
    ensures Queue(edges, seeds, seeds, queued) && Passed(edges, seeds, queued, 0)
  {
    hide Reaches;
    forall n | n in seeds ensures ReachedFrom(edges, seeds, n) { ReachesSelf(edges, n); }
  }

  lemma QueuedIsFound(edges: Edges, seeds: set<Name>, found: set<Name>, queued: seq<Name>, k: nat)
    requires Queue(edges, seeds, found, queued) && k < |queued|
    ensures queued[k] in found
  {
  }

  lemma ClosedIsReached(edges: Edges, seeds: set<Name>, found: set<Name>, queued: seq<Name>)
    requires Queue(edges, seeds, found, queued) && Passed(edges, found, queued, |queued|)
    ensures forall n :: n in found <==> ReachedFrom(edges, seeds, n)
    ensures AllDistinct(queued) && Elements(queued) == found
  {
    hide Leads, AllDistinct, Out;
    assert forall n | n in found :: Out(edges, n) <= found;
    forall n | ReachedFrom(edges, seeds, n) ensures n in found {
      var s :| s in seeds && Reaches(edges, s, n);
      var path :| Leads(edges, path, s, n);
      ClosedHolds(edges, found, path, s, n);
    }
  }

  // ---------------------------------------------------------------- inverted edges

  ghost predicate Inverse(edges: Edges, inverted: Edges) {
    forall a, b :: b in Out(edges, a) <==> a in Out(inverted, b)
  }

  function Reversed(s: seq<Name>): (r: seq<Name>)
    ensures |r| == |s| && forall i | 0 <= i < |s| :: r[i] == s[|s| - 1 - i]
  {
    seq(|s|, i requires 0 <= i < |s| => s[|s| - 1 - i])
  }

  lemma PathReversed(edges: Edges, inverted: Edges, path: seq<Name>, a: Name, b: Name)
    requires Inverse(edges, inverted) && Leads(edges, path, a, b)
    ensures Leads(inverted, Reversed(path), b, a)
  {
    var back := Reversed(path);
    forall i | 0 <= i < |back| - 1 ensures back[i + 1] in Out(inverted, back[i]) {
      var j := |path| - 2 - i;
      assert path[j + 1] in Out(edges, path[j]);
    }
  }

  lemma InverseIsSymmetric(edges: Edges, inverted: Edges)
    requires Inverse(edges, inverted)
    ensures Inverse(inverted, edges)
  {
  }

  /** A node is reached over the edges exactly when it reaches back over the inverted ones. */
  lemma ReachesDual(edges: Edges, inverted: Edges, a: Name, b: Name)
    requires Inverse(edges, inverted)
    ensures Reaches(edges, a, b) <==> Reaches(inverted, b, a)
  {
    hide Inverse, Leads;
    InverseIsSymmetric(edges, inverted);
    if Reaches(edges, a, b) {
      var path :| Leads(edges, path, a, b);
      PathReversed(edges, inverted, path, a, b);
    }
    if Reaches(inverted, b, a) {
      var path :| Leads(inverted, path, b, a);
      PathReversed(inverted, edges, path, b, a);
    }
  }

  /** So closures are dual: `b` is found from `a` in one exactly when `a` is found from `b` in the other. */
  lemma ClosuresAreDual(edges: Edges, inverted: Edges, a: Name, b: Name)
    requires Inverse(edges, inverted)
    ensures ReachedFrom(edges, {a}, b) <==> ReachedFrom(inverted, {b}, a)
  {
    hide Inverse, Reaches;
    ReachesDual(edges, inverted, a, b);
    assert a in {a} && b in {b};
  }
}
