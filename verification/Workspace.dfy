/** Building the dependency edges of a workspace from resolved metadata. */
module Workspace {

  import opened Bytes
  import opened Closure

  type Id = seq<Byte>

  /** One resolved dependency; each of its kinds is a development one or not. */
  datatype Dependency = Dependency(pkg: Id, devKinds: seq<bool>)

  datatype Node = Node(id: Id, dependencies: seq<Id>, deps: seq<Dependency>)

  /** The known names of the node's dependencies. */
  function DependencyNames(node: Node, names: map<Id, Name>): set<Name> {
    set id | id in node.dependencies && id in names :: names[id]
  }

  /** Those that are not for development only. */
  function ArtifactNames(node: Node, names: map<Id, Name>): set<Name> {
    set d | d in node.deps && false in d.devKinds && d.pkg in names :: names[d.pkg]
  }

  predicate NodeDepends(node: Node, names: map<Id, Name>, a: Name, b: Name) {
    node.id in names && names[node.id] == a && b in DependencyNames(node, names)
  }

  /** Some node named `a` depends on something named `b`. */
  predicate DependsOn(nodes: seq<Node>, names: map<Id, Name>, a: Name, b: Name) {
    exists i :: 0 <= i < |nodes| && NodeDepends(nodes[i], names, a, b)
  }

  lemma DependsOnSnoc(nodes: seq<Node>, k: nat, names: map<Id, Name>, a: Name, b: Name)
    requires k < |nodes|
    ensures DependsOn(nodes[..k + 1], names, a, b)
      <==> DependsOn(nodes[..k], names, a, b) || NodeDepends(nodes[k], names, a, b)
  {
    hide NodeDepends;
    var front, more := nodes[..k], nodes[..k + 1];
    assert more[k] == nodes[k] && forall i | 0 <= i < k :: more[i] == front[i];
  }

  function AddEdge(edges: Edges, a: Name, b: Name): Edges { edges[a := Out(edges, a) + {b}] }

  lemma AddedEdge(edges: Edges, a: Name, b: Name, c: Name, d: Name)
    ensures d in Out(AddEdge(edges, a, b), c) <==> d in Out(edges, c) || (c == a && d == b)
  {
  }

  /** The reverse edges are exactly the inverted dependencies between workspace packages. */
  ghost predicate ReverseOf(reverse: Edges, nodes: seq<Node>, names: map<Id, Name>, packages: set<Name>) {
    forall a, b :: a in Out(reverse, b) <==> a in packages && b in packages && DependsOn(nodes, names, a, b)
  }

  /** Adds, for one node of the workspace, an edge back from each dependency that is in it too. */
  method AddReverse(reverse: Edges, name: Name, dependencies: set<Name>, packages: set<Name>) returns (r: Edges)
    ensures forall a, b :: a in Out(r, b) <==> a in Out(reverse, b) || (a == name && b in dependencies && b in packages)
  {
    hide Out;
    r := reverse;
    var remaining := dependencies;
    while remaining != {}
      invariant remaining <= dependencies
      invariant forall a, b ::
        a in Out(r, b) <==> (a in Out(reverse, b) || (a == name && b in dependencies - remaining && b in packages))
      decreases |remaining|
    {
      var dependency :| dependency in remaining;
      if dependency in packages {
        forall a, b
          ensures a in Out(AddEdge(r, dependency, name), b) <==> a in Out(r, b) || (b == dependency && a == name)
        {
          AddedEdge(r, dependency, name, b, a);
        }
        r := AddEdge(r, dependency, name);
      }
      remaining := remaining - {dependency};
    }
  }

  /** The last node of a name decides what it is built from. */
  function ArtifactEdges(nodes: seq<Node>, names: map<Id, Name>): Edges {
    if nodes == [] then map[]
    else
      var last := nodes[|nodes| - 1];
      var rest := ArtifactEdges(nodes[..|nodes| - 1], names);
      if last.id in names then rest[names[last.id] := ArtifactNames(last, names)] else rest
  }

  /** One of the node's dependencies has this name, and some kind of it that is not for development. */
  predicate BuildsFrom(node: Node, names: map<Id, Name>, name: Name) {
    exists i, k ::
      && 0 <= i < |node.deps| && 0 <= k < |node.deps[i].devKinds| && !node.deps[i].devKinds[k]
      && node.deps[i].pkg in names && names[node.deps[i].pkg] == name
  }

  lemma ArtifactNamesAre(node: Node, names: map<Id, Name>, name: Name)
    ensures name in ArtifactNames(node, names) <==> BuildsFrom(node, names, name)
  {
    if name in ArtifactNames(node, names) {
      var d :| d in node.deps && false in d.devKinds && d.pkg in names && names[d.pkg] == name;
      var i :| 0 <= i < |node.deps| && node.deps[i] == d;
      var k :| 0 <= k < |d.devKinds| && d.devKinds[k] == false;
      assert !node.deps[i].devKinds[k];
    }
    if i, k :| 0 <= i < |node.deps| && 0 <= k < |node.deps[i].devKinds| && !node.deps[i].devKinds[k]
               && node.deps[i].pkg in names && names[node.deps[i].pkg] == name {
      assert node.deps[i] in node.deps && false in node.deps[i].devKinds;
    }
  }

  /** Node `i` has this name, and no later node has. */
  predicate LastNamed(nodes: seq<Node>, names: map<Id, Name>, name: Name, i: nat) {
    && i < |nodes| && nodes[i].id in names && names[nodes[i].id] == name
    && forall j | i < j < |nodes| && nodes[j].id in names :: names[nodes[j].id] != name
  }

  /** A name has artifact edges exactly if some node has it, to what the last such node is built from. */
  lemma {:induction false} LastNodeDecides(nodes: seq<Node>, names: map<Id, Name>, name: Name)
    ensures name in ArtifactEdges(nodes, names) <==> exists i: nat :: LastNamed(nodes, names, name, i)
    ensures forall i: nat | LastNamed(nodes, names, name, i) :: name in ArtifactEdges(nodes, names)
              && ArtifactEdges(nodes, names)[name] == ArtifactNames(nodes[i], names)
    decreases |nodes|
  {
    hide ArtifactNames;
    if nodes != [] {
      var n := |nodes| - 1;
      var front := nodes[..n];
      LastNodeDecides(front, names, name);
      if nodes[n].id in names && names[nodes[n].id] == name {
        assert LastNamed(nodes, names, name, n);
      } else {
        forall i: nat ensures LastNamed(nodes, names, name, i) <==> LastNamed(front, names, name, i) {
          LastNamedFront(nodes, names, name, i);
        }
      }
    }
  }

  lemma LastNamedFront(nodes: seq<Node>, names: map<Id, Name>, name: Name, i: nat)
    requires nodes != [] && (nodes[|nodes| - 1].id in names ==> names[nodes[|nodes| - 1].id] != name)
    ensures LastNamed(nodes, names, name, i) <==> LastNamed(nodes[..|nodes| - 1], names, name, i)
  {
    var front := nodes[..|nodes| - 1];
    assert forall j | 0 <= j < |front| :: front[j] == nodes[j];
  }

  method BuildEdges(nodes: seq<Node>, names: map<Id, Name>, packages: set<Name>)
    returns (artifact: Edges, reverse: Edges)
    ensures artifact == ArtifactEdges(nodes, names)
    ensures ReverseOf(reverse, nodes, names, packages)
  {
    hide DependsOn, DependencyNames, ArtifactNames, Out, ReverseOf;
    artifact, reverse := map[], map[];
    NoReverse(names, packages);
    assert nodes[..0] == [];
    for k := 0 to |nodes|
      invariant artifact == ArtifactEdges(nodes[..k], names)
      invariant ReverseOf(reverse, nodes[..k], names, packages)
    {
      var node := nodes[k];
      assert nodes[..k + 1][..k] == nodes[..k];
      ghost var before := reverse;
      if node.id in names {
        var name := names[node.id];
        if name in packages {
          reverse := AddReverse(reverse, name, DependencyNames(node, names), packages);
        }
        artifact := artifact[name := ArtifactNames(node, names)];
      }
      ReverseGrows(before, reverse, nodes, k, names, packages);
    }
    assert nodes[..|nodes|] == nodes;
  }

  lemma NoReverse(names: map<Id, Name>, packages: set<Name>)
    ensures ReverseOf(map[], [], names, packages)
  {
  }

  lemma ReverseGrows(before: Edges, after: Edges, nodes: seq<Node>, k: nat, names: map<Id, Name>, packages: set<Name>)
    requires k < |nodes| && ReverseOf(before, nodes[..k], names, packages)
    requires var node := nodes[k];
             if node.id in names && names[node.id] in packages then
               forall a, b ::
                 a in Out(after, b) <==> (a in Out(before, b)
                   || (a == names[node.id] && b in DependencyNames(node, names) && b in packages))
             else after == before
    ensures ReverseOf(after, nodes[..k + 1], names, packages)
  {
    hide Out, DependsOn, DependencyNames;
    forall a, b
      ensures a in Out(after, b) <==> a in packages && b in packages && DependsOn(nodes[..k + 1], names, a, b)
    {
      DependsOnSnoc(nodes, k, names, a, b);
    }
  }

  // ---------------------------------------------------------------- what the closures mean

  /** The dependency edges between workspace packages. */
  ghost function WorkspaceEdges(nodes: seq<Node>, names: map<Id, Name>, packages: set<Name>): Edges {
    map a | a in packages :: set b | b in packages && DependsOn(nodes, names, a, b)
  }

  lemma ReverseIsInverse(reverse: Edges, nodes: seq<Node>, names: map<Id, Name>, packages: set<Name>)
    requires ReverseOf(reverse, nodes, names, packages)
    ensures Inverse(reverse, WorkspaceEdges(nodes, names, packages))
  {
    hide DependsOn;
    var forward := WorkspaceEdges(nodes, names, packages);
    forall a, b ensures b in Out(reverse, a) <==> a in Out(forward, b) {
    }
  }

  /**
   * The reverse closure of changed packages is exactly the packages that depend on one of them,
   * through any chain inside the workspace, together with the changed packages themselves.
   */
  lemma ReverseClosureIsDependents(reverse: Edges, nodes: seq<Node>, names: map<Id, Name>, packages: set<Name>,
                                   seeds: set<Name>, n: Name)
    requires ReverseOf(reverse, nodes, names, packages)
    ensures ReachedFrom(reverse, seeds, n)
            <==> exists s :: s in seeds && Reaches(WorkspaceEdges(nodes, names, packages), n, s)
  {
    hide Reaches, WorkspaceEdges;
    ReverseIsInverse(reverse, nodes, names, packages);
    var forward := WorkspaceEdges(nodes, names, packages);
    forall s ensures Reaches(reverse, s, n) <==> Reaches(forward, n, s) {
      ReachesDual(reverse, forward, s, n);
    }
  }
}
