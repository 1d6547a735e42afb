/**
 * The wiring graph of `Y23Day25.java`: components name their neighbours on
 * each input line, the graph is made undirected, wires are cut, and the size
 * of the group a component still belongs to is counted.
 *
 * Nodes are objects in the source, but `getOrCreateNode` keeps one per name,
 * so the model identifies a node with its name: `nodes` maps a name to the
 * names of its children, `nodes3D` maps a name to the set of its neighbours'
 * names. Positions in space and the force layout are not part of this model.
 */
module Y23Day25 {
  import opened Wrappers

  /** Neighbour sets by node name. */
  type Adjacency = map<string, set<string>>

  /** `y` is a neighbour of node `x`. */
  predicate Edge(adj: Adjacency, x: string, y: string) {
    x in adj && y in adj[x]
  }

  /** Every neighbour is itself a node, and every wire runs both ways. */
  ghost predicate Symmetric(adj: Adjacency) {
    forall x, y :: Edge(adj, x, y) ==> Edge(adj, y, x)
  }

  /** Every neighbour is itself a node. */
  ghost predicate Closed(adj: Adjacency) {
    forall x, y :: Edge(adj, x, y) ==> y in adj
  }

  /** `addNode3DConnection`: each end gets the other as a neighbour. */
  function AddEdge(adj: Adjacency, a: string, b: string): (r: Adjacency)
    requires a in adj && b in adj
    ensures r.Keys == adj.Keys
    ensures forall x, y :: Edge(r, x, y) <==> Edge(adj, x, y) || (x == a && y == b) || (x == b && y == a)
  {
    var m := adj[a := adj[a] + {b}];
    m[b := m[b] + {a}]
  }

  /** `remove(a, b)` on the neighbour sets: each end drops the other. */
  function RemoveEdge(adj: Adjacency, a: string, b: string): (r: Adjacency)
    requires a in adj && b in adj
    ensures r.Keys == adj.Keys
    ensures forall x, y :: Edge(r, x, y) <==> Edge(adj, x, y) && !(x == a && y == b) && !(x == b && y == a)
  {
    var m := adj[a := adj[a] - {b}];
    m[b := m[b] - {a}]
  }

  /** Cutting a wire keeps the graph undirected. */
  lemma RemoveEdgeKeepsSymmetric(adj: Adjacency, a: string, b: string)
    requires a in adj && b in adj && Symmetric(adj)
    ensures Symmetric(RemoveEdge(adj, a, b))
  {
    var r := RemoveEdge(adj, a, b);
    forall x, y | Edge(r, x, y)
      ensures Edge(r, y, x)
    {
      assert Edge(adj, x, y);
    }
  }

  /** Cutting a wire and adding it again restores a graph that had it. */
  lemma RemoveThenAddRestores(adj: Adjacency, a: string, b: string)
    requires Edge(adj, a, b) && Edge(adj, b, a)
    ensures AddEdge(RemoveEdge(adj, a, b), a, b) == adj
  {
    var r := AddEdge(RemoveEdge(adj, a, b), a, b);
    forall x | x in adj
      ensures r[x] == adj[x]
    {
      forall y
        ensures y in r[x] <==> y in adj[x]
      {
        assert Edge(r, x, y) <==> Edge(adj, x, y);
      }
    }
  }

  // ---------------------------------------------------------------------------
  // create3DTopology
  // ---------------------------------------------------------------------------

  /** A wire from `x` to `y` named on the line of a node listed in `ns`. */
  ghost predicate Named(nodes: map<string, seq<string>>, ns: seq<string>, x: string, y: string) {
    x in ns && x in nodes && y in nodes[x]
  }

  /** Every listed node is a node, and every child it names is listed. */
  ghost predicate Listed(nodes: map<string, seq<string>>, names: seq<string>) {
    forall n :: n in names ==> n in nodes && forall c :: c in nodes[n] ==> c in names
  }

  /** One node per name, none with neighbours yet. */
  function EmptyAdjacency(names: seq<string>): (r: Adjacency)
    ensures r.Keys == set n | n in names
    ensures forall x, y :: !Edge(r, x, y)
  {
    map n | n in names :: {}
  }

  /** Connects node `a` with each of `children`, in order. */
  function ConnectChildren(adj: Adjacency, a: string, children: seq<string>): (r: Adjacency)
    requires a in adj && forall c :: c in children ==> c in adj
    ensures r.Keys == adj.Keys
    ensures forall x, y :: Edge(r, x, y) <==> Edge(adj, x, y) || (x == a && y in children) || (y == a && x in children)
  {
    if children == [] then adj
    else
      var init := children[..|children| - 1];
      var last := children[|children| - 1];
      assert forall c :: c in children <==> c in init || c == last;
      AddEdge(ConnectChildren(adj, a, init), a, last)
  }

  /** Connects every node listed in `ns` with its children, node by node. */
  function ConnectAll(adj: Adjacency, ns: seq<string>, nodes: map<string, seq<string>>): (r: Adjacency)
    requires forall n :: n in ns ==> n in adj && n in nodes && forall c :: c in nodes[n] ==> c in adj
    ensures r.Keys == adj.Keys
    ensures forall x, y :: Edge(r, x, y) <==> Edge(adj, x, y) || Named(nodes, ns, x, y) || Named(nodes, ns, y, x)
  {
    if ns == [] then adj
    else
      var init := ns[..|ns| - 1];
      var last := ns[|ns| - 1];
      assert forall n :: n in ns <==> n in init || n == last;
      ConnectChildren(ConnectAll(adj, init, nodes), last, nodes[last])
  }

  /** The neighbour sets `create3DTopology` builds from the child lists. */
  function Topology(nodes: map<string, seq<string>>, names: seq<string>): (r: Adjacency)
    requires Listed(nodes, names)
    ensures r.Keys == set n | n in names
  {
    ConnectAll(EmptyAdjacency(names), names, nodes)
  }

  /**
   * Two nodes are neighbours in the topology exactly when one of them names
   * the other as a child; in particular the topology is undirected.
   */
  lemma TopologyEdges(nodes: map<string, seq<string>>, names: seq<string>)
    requires Listed(nodes, names)
    ensures forall x, y :: Edge(Topology(nodes, names), x, y) <==> Named(nodes, names, x, y) || Named(nodes, names, y, x)
    ensures Symmetric(Topology(nodes, names))
  {
  }

  // ---------------------------------------------------------------------------
  // Splitting a wire name
  // ---------------------------------------------------------------------------

  /** The pieces of `s` between the occurrences of `sep`, empty ones included. */
  function SplitOn(s: string, sep: char): (r: seq<string>)
    ensures |r| >= 1
    ensures forall i :: 0 <= i < |r| ==> sep !in r[i]
  {
    if s == [] then [""]
    else
      var rest := SplitOn(s[1..], sep);
      if s[0] == sep then [""] + rest else [[s[0]] + rest[0]] + rest[1..]
  }

  /** Drops the empty pieces at the end. */
  function DropTrailingEmpty(parts: seq<string>): (r: seq<string>)
    ensures |r| <= |parts| && r == parts[..|r|]
    ensures |r| > 0 ==> r[|r| - 1] != ""
    ensures forall i :: |r| <= i < |parts| ==> parts[i] == ""
  {
    if parts == [] || parts[|parts| - 1] != "" then parts
    else DropTrailingEmpty(parts[..|parts| - 1])
  }

  /** Java's `s.split("-")`: without a separator the string itself, otherwise the pieces without trailing empty ones. */
  function JavaSplit(s: string, sep: char): seq<string> {
    if sep !in s then [s] else DropTrailingEmpty(SplitOn(s, sep))
  }

  lemma {:induction false} SplitOnNoSep(a: string, sep: char)
    requires sep !in a
    ensures SplitOn(a, sep) == [a]
  {
    if a != [] {
      assert sep !in a[1..];
      SplitOnNoSep(a[1..], sep);
      assert [a[0]] + a[1..] == a;
    }
  }

  lemma {:induction false} SplitOnJoin(a: string, sep: char, b: string)
    requires sep !in a
    ensures SplitOn(a + [sep] + b, sep) == [a] + SplitOn(b, sep)
  {
    var s := a + [sep] + b;
    if a == [] {
      assert s[0] == sep && s[1..] == b;
    } else {
      assert s[0] == a[0] && s[1..] == a[1..] + [sep] + b;
      assert sep !in a[1..];
      SplitOnJoin(a[1..], sep, b);
      assert [a[0]] + a[1..] == a;
    }
  }

  /** A wire name built as `a + "-" + b` from two names without '-' splits back into them. */
  lemma SplitWireName(a: string, b: string)
    requires '-' !in a && '-' !in b && b != ""
    ensures JavaSplit(a + "-" + b, '-') == [a, b]
  {
    assert '-' in a + "-" + b by {
      assert (a + "-" + b)[|a|] == '-';
    }
    SplitOnJoin(a, '-', b);
    SplitOnNoSep(b, '-');
  }

  // ---------------------------------------------------------------------------
  // countCluster
  // ---------------------------------------------------------------------------

  /** A walk along wires: consecutive nodes are neighbours. */
  ghost predicate IsPath(adj: Adjacency, p: seq<string>) {
    |p| >= 1 &&
    (forall i :: 0 <= i < |p| ==> p[i] in adj) &&
    (forall i :: 0 <= i < |p| - 1 ==> Edge(adj, p[i], p[i + 1]))
  }

  ghost predicate Reachable(adj: Adjacency, s: string, t: string) {
    exists p :: IsPath(adj, p) && p[0] == s && p[|p| - 1] == t
  }

  /** Nodes of `c` have all their neighbours in `c`. */
  ghost predicate ClosedUnder(adj: Adjacency, c: set<string>) {
    forall x, y :: x in c && Edge(adj, x, y) ==> y in c
  }

  /** The connected component of `s`: closed under wires, and every node in it reachable from `s`. */
  ghost predicate IsComponent(adj: Adjacency, s: string, c: set<string>) {
    s in c && c <= adj.Keys && ClosedUnder(adj, c) && forall x :: x in c ==> Reachable(adj, s, x)
  }

  lemma ReachableStart(adj: Adjacency, s: string)
    requires s in adj
    ensures Reachable(adj, s, s)
  {
    assert IsPath(adj, [s]);
  }

  lemma ReachableStep(adj: Adjacency, s: string, x: string, y: string)
    requires Reachable(adj, s, x) && Edge(adj, x, y) && y in adj
    ensures Reachable(adj, s, y)
  {
    var p :| IsPath(adj, p) && p[0] == s && p[|p| - 1] == x;
    assert IsPath(adj, p + [y]);
  }

  /** A set closed under wires that holds `s` holds every node a walk from `s` reaches. */
  lemma {:induction false} ClosedHoldsPath(adj: Adjacency, c: set<string>, p: seq<string>)
    requires ClosedUnder(adj, c) && IsPath(adj, p) && p[0] in c
    ensures p[|p| - 1] in c
  {
    if |p| > 1 {
      var init := p[..|p| - 1];
      assert IsPath(adj, init);
      ClosedHoldsPath(adj, c, init);
      assert Edge(adj, p[|p| - 2], p[|p| - 1]);
    }
  }

  /** The component of a node is unique, so the count does not depend on the visiting order. */
  lemma ComponentUnique(adj: Adjacency, s: string, c1: set<string>, c2: set<string>)
    requires IsComponent(adj, s, c1) && IsComponent(adj, s, c2)
    ensures c1 == c2
  {
    forall x | x in c1
      ensures x in c2
    {
      var p :| IsPath(adj, p) && p[0] == s && p[|p| - 1] == x;
      ClosedHoldsPath(adj, c2, p);
    }
    forall x | x in c2
      ensures x in c1
    {
      var p :| IsPath(adj, p) && p[0] == s && p[|p| - 1] == x;
      ClosedHoldsPath(adj, c1, p);
    }
  }

  /** The inner loop of `countCluster`: queues every neighbour not yet in the cluster. */
  method QueueNeighbours(newNodes: set<string>, neighbours: set<string>, clusterNodes: set<string>) returns (r: set<string>)
    ensures r == newNodes + (neighbours - clusterNodes)
  {
    r := newNodes;
    var rest := neighbours;
    while rest != {}
      invariant rest <= neighbours
      invariant r == newNodes + (neighbours - rest - clusterNodes)
      decreases |rest|
    {
      var child :| child in rest;
      if child !in clusterNodes {
        r := r + {child};
      }
      rest := rest - {child};
    }
  }

  lemma RemovingShrinks(keys: set<string>, c: set<string>, n: string)
    requires n in keys && n !in c
    ensures |keys - (c + {n})| < |keys - c|
  {
    assert keys - c == (keys - (c + {n})) + {n};
  }

  /**
   * `countCluster(start)`: the size of the start node's connected component.
   * `None` where the source dereferences a missing node.
   */
  method CountCluster(adj: Adjacency, start: string) returns (r: Option<int>, ghost cluster: set<string>)
    requires Closed(adj)
    ensures r.Some? <==> start in adj
    ensures r.Some? ==> r.value == |cluster| && IsComponent(adj, start, cluster)
    ensures r.Some? ==> 1 <= r.value <= |adj.Keys|
  {
    if start !in adj {
      return None, {};
    }
    ReachableStart(adj, start);
    var clusterNodes: set<string> := {};
    var newNodes: set<string> := {start};
    while newNodes != {}
      invariant Searching(adj, start, clusterNodes, newNodes)
      decreases |adj.Keys - clusterNodes|
    {
      var nodeName :| nodeName in newNodes;
      var neighbours := adj[nodeName];
      SearchStep(adj, start, clusterNodes, newNodes, nodeName);
      RemovingShrinks(adj.Keys, clusterNodes, nodeName);
      newNodes := newNodes - {nodeName};
      clusterNodes := clusterNodes + {nodeName};
      newNodes := QueueNeighbours(newNodes, neighbours, clusterNodes);
    }
    SearchDone(adj, start, clusterNodes);
    SubsetSize(clusterNodes, adj.Keys);
    return Some(|clusterNodes|), clusterNodes;
  }

  /**
   * The state of the search in `countCluster`: visited nodes and queued
   * nodes are disjoint nodes reachable from the start, and every neighbour
   * of a visited node is visited or queued.
   */
  ghost predicate Searching(adj: Adjacency, start: string, visited: set<string>, queued: set<string>) {
    visited <= adj.Keys && queued <= adj.Keys && visited !! queued &&
    (start in visited || start in queued) &&
    (forall x, y :: x in visited && Edge(adj, x, y) ==> y in visited || y in queued) &&
    (forall x :: x in visited ==> Reachable(adj, start, x)) &&
    (forall x :: x in queued ==> Reachable(adj, start, x))
  }

  /** Visiting a queued node and queueing its unvisited neighbours keeps the search state. */
  lemma SearchStep(adj: Adjacency, start: string, visited: set<string>, queued: set<string>, n: string)
    requires Closed(adj) && Searching(adj, start, visited, queued) && n in queued
    ensures Searching(adj, start, visited + {n}, (queued - {n}) + (adj[n] - (visited + {n})))
  {
    forall y | y in adj[n]
      ensures y in adj && Reachable(adj, start, y)
    {
      assert Edge(adj, n, y);
      ReachableStep(adj, start, n, y);
    }
  }

  /** A finished search has visited exactly the component of the start node. */
  lemma SearchDone(adj: Adjacency, start: string, visited: set<string>)
    requires Searching(adj, start, visited, {})
    ensures IsComponent(adj, start, visited)
  {
  }

  lemma SubsetSize(a: set<string>, b: set<string>)
    requires a <= b
    ensures |a| <= |b|
  {
    assert b == a + (b - a);
  }

  /** The names list exactly the nodes, and every child named is a node. */
  ghost predicate NodesValid(nodes: map<string, seq<string>>, names: seq<string>) {
    (forall n :: n in nodes <==> n in names) && ChildrenKnown(nodes)
  }

  /** `getOrCreateNode` on the node table: a new name gets a node without children. */
  function GetOrCreate(nodes: map<string, seq<string>>, names: seq<string>, nodeName: string): (r: (map<string, seq<string>>, seq<string>))
    requires NodesValid(nodes, names)
    ensures NodesValid(r.0, r.1) && nodeName in r.0
    ensures forall n :: n in r.0 <==> n in nodes || n == nodeName
    ensures forall n :: n in nodes ==> r.0[n] == nodes[n]
    ensures nodeName !in nodes ==> r.0[nodeName] == []
    ensures |r.1| >= |names| && r.1[..|names|] == names
  {
    if nodeName in nodes then (nodes, names)
    else (nodes[nodeName := []], names + [nodeName])
  }

  /** One step of `addNode`: gets or creates the child and appends it to the node's child list. */
  function AddChild(nodes: map<string, seq<string>>, names: seq<string>, nodeName: string, child: string): (r: (map<string, seq<string>>, seq<string>))
    requires NodesValid(nodes, names) && nodeName in nodes
    ensures NodesValid(r.0, r.1)
    ensures forall n :: n in r.0 <==> n in nodes || n == child
    ensures r.0[nodeName] == nodes[nodeName] + [child]
    ensures forall n :: n in r.0 && n != nodeName ==> r.0[n] == if n in nodes then nodes[n] else []
    ensures |r.1| >= |names| && r.1[..|names|] == names
  {
    var created := GetOrCreate(nodes, names, child);
    (created.0[nodeName := created.0[nodeName] + [child]], created.1)
  }

  /** Every child of `addNode`, added one after the other. */
  function AddAll(nodes: map<string, seq<string>>, names: seq<string>, nodeName: string, children: seq<string>): (r: (map<string, seq<string>>, seq<string>))
    requires NodesValid(nodes, names) && nodeName in nodes
    ensures NodesValid(r.0, r.1) && nodeName in r.0
    ensures |r.1| >= |names| && r.1[..|names|] == names
  {
    if children == [] then (nodes, names)
    else
      var before := AddAll(nodes, names, nodeName, children[..|children| - 1]);
      AddChild(before.0, before.1, nodeName, children[|children| - 1])
  }

  /** After `addNode` the nodes are the old ones and the children. */
  lemma {:induction false} AddAllKeys(nodes: map<string, seq<string>>, names: seq<string>, nodeName: string, children: seq<string>)
    requires NodesValid(nodes, names) && nodeName in nodes
    ensures forall n :: n in AddAll(nodes, names, nodeName, children).0 <==> n in nodes || n in children
  {
    if children != [] {
      var init := children[..|children| - 1];
      assert children == init + [children[|children| - 1]];
      AddAllKeys(nodes, names, nodeName, init);
    }
  }

  /** `addNode` appends exactly the children, in order, to the node's child list. */
  lemma {:induction false} AddAllAppends(nodes: map<string, seq<string>>, names: seq<string>, nodeName: string, children: seq<string>)
    requires NodesValid(nodes, names) && nodeName in nodes
    ensures AddAll(nodes, names, nodeName, children).0[nodeName] == nodes[nodeName] + children
  {
    if children != [] {
      var init := children[..|children| - 1];
      assert children == init + [children[|children| - 1]];
      AddAllAppends(nodes, names, nodeName, init);
    }
  }

  /** `addNode` changes no other node's child list, and new nodes have none. */
  lemma {:induction false} AddAllKeepsOthers(nodes: map<string, seq<string>>, names: seq<string>, nodeName: string, children: seq<string>)
    requires NodesValid(nodes, names) && nodeName in nodes
    ensures var r := AddAll(nodes, names, nodeName, children).0;
      forall n :: n in r && n != nodeName ==> r[n] == if n in nodes then nodes[n] else []
  {
    if children != [] {
      AddAllKeepsOthers(nodes, names, nodeName, children[..|children| - 1]);
    }
  }

  /** The loop of `addNode`: gets or creates each child and appends it to the node's child list. */
  method AddChildren(nodes: map<string, seq<string>>, names: seq<string>, nodeName: string, childNodeNames: seq<string>)
    returns (nodes': map<string, seq<string>>, names': seq<string>)
    requires NodesValid(nodes, names) && nodeName in nodes
    ensures (nodes', names') == AddAll(nodes, names, nodeName, childNodeNames)
  {
    nodes', names' := nodes, names;
    for i := 0 to |childNodeNames|
      invariant (nodes', names') == AddAll(nodes, names, nodeName, childNodeNames[..i])
    {
      assert childNodeNames[..i + 1][..i] == childNodeNames[..i];
      var added := AddChild(nodes', names', nodeName, childNodeNames[i]);
      nodes', names' := added.0, added.1;
    }
    assert childNodeNames[..|childNodeNames|] == childNodeNames;
  }

  /** The inner loop of `create3DTopology`: connects one node with each of its children. */
  method ConnectNode(adj: Adjacency, nodeName: string, children: seq<string>) returns (r: Adjacency)
    requires nodeName in adj && forall c :: c in children ==> c in adj
    ensures r == ConnectChildren(adj, nodeName, children)
  {
    r := adj;
    for j := 0 to |children|
      invariant r == ConnectChildren(adj, nodeName, children[..j])
    {
      assert children[..j + 1][..j] == children[..j];
      r := AddEdge(r, nodeName, children[j]);
    }
    assert children[..|children|] == children;
  }

  /** The loops of `create3DTopology`: a node per name, then each node connected with its children. */
  /** The first loop of `buildTopology`: one node without neighbours per name. */
  method AddAllNodes(names: seq<string>) returns (adj: Adjacency)
    ensures adj == EmptyAdjacency(names)
  {
    adj := map[];
    for i := 0 to |names|
      invariant adj == EmptyAdjacency(names[..i])
    {
      adj := adj[names[i] := {}];
      assert names[..i + 1] == names[..i] + [names[i]];
    }
    assert names[..|names|] == names;
  }

  method BuildTopology(nodes: map<string, seq<string>>, names: seq<string>) returns (adj: Adjacency)
    requires Listed(nodes, names)
    ensures adj == Topology(nodes, names)
  {
    adj := AddAllNodes(names);
    ghost var empty := adj;
    for i := 0 to |names|
      invariant adj == ConnectAll(empty, names[..i], nodes)
    {
      var nodeName := names[i];
      adj := ConnectNode(adj, nodeName, nodes[nodeName]);
      assert names[..i + 1][..i] == names[..i];
    }
    assert names[..|names|] == names;
  }

  // ---------------------------------------------------------------------------
  // The world
  // ---------------------------------------------------------------------------

  /** Every child a node names is itself a node. */
  ghost predicate ChildrenKnown(nodes: map<string, seq<string>>) {
    forall n, c :: n in nodes && c in nodes[n] ==> c in nodes
  }

  class World {
    var nodes: map<string, seq<string>>
    /** The node names in the order in which they were first seen (the order of the `LinkedHashMap`). */
    var names: seq<string>
    var nodes3D: Adjacency

    ghost predicate Valid()
      reads this
    {
      NodesValid(nodes, names) && Symmetric(nodes3D)
    }

    constructor ()
      ensures Valid() && nodes == map[] && names == [] && nodes3D == map[]
    {
      nodes := map[];
      names := [];
      nodes3D := map[];
    }

    /** The node of that name, created without children when it is new. */
    method GetOrCreateNode(nodeName: string)
      requires Valid()
      modifies this`nodes, this`names
      ensures Valid() && nodes3D == old(nodes3D)
      ensures (nodes, names) == GetOrCreate(old(nodes), old(names), nodeName)
    {
      if nodeName !in nodes {
        nodes := nodes[nodeName := []];
        names := names + [nodeName];
      }
    }

    /**
     * Appends the named children to the node's child list, creating any
     * node that is new; `AddAllKeys`, `AddAllAppends` and `AddAllKeepsOthers`
     * state what that changes.
     */
    method AddNode(nodeName: string, childNodeNames: seq<string>)
      requires Valid()
      modifies this`nodes, this`names
      ensures Valid()
      ensures var created := GetOrCreate(old(nodes), old(names), nodeName);
        (nodes, names) == AddAll(created.0, created.1, nodeName, childNodeNames)
    {
      GetOrCreateNode(nodeName);
      nodes, names := AddChildren(nodes, names, nodeName, childNodeNames);
    }

    /** One node per name, connected both ways with every child it names. */
    method Create3DTopology()
      requires Valid()
      modifies this`nodes3D
      ensures Valid()
      ensures nodes3D == Topology(nodes, names)
    {
      nodes3D := BuildTopology(nodes, names);
      TopologyEdges(nodes, names);
    }

    /** Cuts the wire between two nodes; `ok == false`, with nothing changed, where a node is missing. */
    method Remove(nodeName1: string, nodeName2: string) returns (ok: bool)
      requires Valid()
      modifies this`nodes3D
      ensures Valid()
      ensures ok <==> nodeName1 in old(nodes3D) && nodeName2 in old(nodes3D)
      ensures nodes3D == if ok then RemoveEdge(old(nodes3D), nodeName1, nodeName2) else old(nodes3D)
    {
      if nodeName1 !in nodes3D || nodeName2 !in nodes3D {
        return false;
      }
      RemoveEdgeKeepsSymmetric(nodes3D, nodeName1, nodeName2);
      nodes3D := nodes3D[nodeName1 := nodes3D[nodeName1] - {nodeName2}];
      nodes3D := nodes3D[nodeName2 := nodes3D[nodeName2] - {nodeName1}];
      ok := true;
    }

    /** Cuts the wire named "a-b"; `ok == false` where the name has fewer than two pieces or a node is missing. */
    method RemoveLine(lineName: string) returns (ok: bool)
      requires Valid()
      modifies this`nodes3D
      ensures Valid()
      ensures var parts := JavaSplit(lineName, '-');
        ok <==> |parts| >= 2 && parts[0] in old(nodes3D) && parts[1] in old(nodes3D)
      ensures var parts := JavaSplit(lineName, '-');
        nodes3D == if ok then RemoveEdge(old(nodes3D), parts[0], parts[1]) else old(nodes3D)
    {
      var nodeNames := JavaSplit(lineName, '-');
      if |nodeNames| < 2 {
        return false;
      }
      ok := Remove(nodeNames[0], nodeNames[1]);
    }

    /** The size of the connected component of the start node, `None` for an unknown node. */
    method CountClusterOf(startNodeName: string) returns (r: Option<int>)
      requires Valid()
      ensures r.Some? <==> startNodeName in nodes3D
      ensures r.Some? ==> exists c :: IsComponent(nodes3D, startNodeName, c) && r.value == |c|
    {
      ghost var cluster;
      r, cluster := CountCluster(nodes3D, startNodeName);
    }
  }
}
