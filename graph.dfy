/**
  The graph of main.py and its greedy leaf-elimination path counter.

  A tree with M edges has the node ids 1..M+1; id 0 is an unused slot. The
  graph keeps the live ids, a neighbour set and a colour per id, and the
  frontier of live ids with at most one live neighbour. `CountPaths`
  repeatedly takes a frontier node, removes it and either completes a
  red-blue path with its neighbour (removing that too) or hands its colour on.
 */
module PathGraph {
  import opened GraphValues

  /**
    Builds the neighbour sets of the ids 0..m+1 from the m parsed edge lines
    (main.py:63-86): every edge is inserted in both directions.
   */
  method ReadNeighbors(m: nat, edges: seq<Edge>) returns (neighbors: seq<set<int>>)
    requires |edges| == m
    requires forall i :: 0 <= i < |edges| ==> 0 <= edges[i].0 < m + 2 && 0 <= edges[i].1 < m + 2
    ensures |neighbors| == m + 2
    ensures forall u, v :: 0 <= u < m + 2 ==> (v in neighbors[u] <==> Adjacent(edges, u, v))
  {
    neighbors := seq(m + 2, _ => {});
    for k := 0 to m
      invariant |neighbors| == m + 2
      invariant forall u, v :: 0 <= u < m + 2 ==> (v in neighbors[u] <==> AdjacentWithin(edges, k, u, v))
    {
      var (u, v) := edges[k];
      neighbors := neighbors[u := neighbors[u] + {v}];
      neighbors := neighbors[v := neighbors[v] + {u}];
      forall a, b | 0 <= a < m + 2
        ensures b in neighbors[a] <==> AdjacentWithin(edges, k + 1, a, b)
      {
        if edges[k] == (a, b) || edges[k] == (b, a) {
          assert AdjacentWithin(edges, k + 1, a, b);
        } else if AdjacentWithin(edges, k + 1, a, b) {
          var i :| 0 <= i < k + 1 && i < |edges| && (edges[i] == (a, b) || edges[i] == (b, a));
          assert AdjacentWithin(edges, k, a, b);
        }
      }
    }
    forall u, v | 0 <= u < m + 2
      ensures v in neighbors[u] <==> Adjacent(edges, u, v)
    {
      if Adjacent(edges, u, v) {
        assert AdjacentWithin(edges, m, u, v);
      }
    }
  }

  /**
    Builds the colour slots 0..size-1 from the parsed red and blue id lists
    (main.py:88-117): every slot starts uncoloured, the red ids are painted
    red, then the blue ids blue.
   */
  method ReadColors(size: nat, red: seq<int>, blue: seq<int>) returns (colors: seq<Color>)
    requires IdsBelow(red, size) && IdsBelow(blue, size)
    ensures |colors| == size
    ensures forall v :: 0 <= v < size ==> colors[v] == InitialColor(red, blue, v)
  {
    colors := seq(size, _ => None);
    for i := 0 to |red|
      invariant |colors| == size
      invariant forall v :: 0 <= v < size ==> colors[v] == if v in red[..i] then Red else None
    {
      assert red[..i + 1] == red[..i] + [red[i]];
      colors := colors[red[i] := Red];
    }
    assert red[..|red|] == red;
    for i := 0 to |blue|
      invariant |colors| == size
      invariant forall v :: 0 <= v < size ==>
        colors[v] == if v in blue[..i] then Blue else if v in red then Red else None
    {
      assert blue[..i + 1] == blue[..i] + [blue[i]];
      colors := colors[blue[i] := Blue];
    }
    assert blue[..|blue|] == blue;
  }

  class Graph {
    /** The edge count M; the ids are 0..M+1 and the nodes 1..M+1. */
    const m: nat
    /** The live node ids. */
    var nodes: set<int>
    /** The live neighbours of each id, indexed by id. */
    var neighbors: seq<set<int>>
    /** The colour recorded for each id; it outlives the node's removal. */
    var colors: seq<Color>
    /** The frontier: live nodes with at most one live neighbour. */
    var leaves: set<int>

    /**
      The shape every state keeps: slots for ids 0..m+1, live ids among
      1..m+1, a symmetric, loop-free adjacency between live nodes only, and
      the frontier among the live nodes with at most one neighbour each.
     */
    ghost predicate Structure()
      reads this
    {
      && |neighbors| == m + 2
      && |colors| == m + 2
      && nodes <= NodeIds(m + 1)
      && Shaped(nodes, neighbors, leaves)
    }

    /**
      The invariant between any two steps of the reduction: besides the
      shape, every live node with exactly one neighbour is on the frontier.
     */
    ghost predicate Valid()
      reads this
    {
      Structure() && FrontierComplete(nodes, neighbors, leaves, {})
    }

    /**
      Builds the graph from the parsed input (main.py:43-61): the nodes
      1..m+1, both directions of every edge, the red and then the blue
      colours, and the initial frontier.
     */
    constructor (m: nat, edges: seq<Edge>, red: seq<int>, blue: seq<int>)
      requires |edges| == m && EdgesWellFormed(m, edges)
      requires IdsBelow(red, m + 2) && IdsBelow(blue, m + 2)
      ensures Valid()
      ensures this.m == m
      ensures nodes == NodeIds(m + 1)
      ensures neighbors[0] == {}
      ensures forall u, v :: 0 <= u < m + 2 ==> (v in neighbors[u] <==> Adjacent(edges, u, v))
      ensures forall v :: 0 <= v < m + 2 ==> colors[v] == InitialColor(red, blue, v)
      ensures leaves == set v | v in nodes && |neighbors[v]| == 1
    {
      this.m := m;
      nodes := NodeIds(m + 1);
      var nb := ReadNeighbors(m, edges);
      neighbors := nb;
      var cs := ReadColors(|nb|, red, blue);
      colors := cs;
      new;
      InitialShape(m, edges, neighbors);
      leaves := GetLeaves();

    }

    /**
      The initial frontier (main.py:119-128): every id with exactly one
      neighbour and no other; when dead ids have no neighbours, these are all
      live nodes.
     */
    function GetLeaves(): (r: set<int>)
      reads this
      ensures forall v :: v in r ==> 0 <= v < |neighbors| && |neighbors[v]| == 1
      ensures forall v :: 0 <= v < |neighbors| && |neighbors[v]| == 1 ==> v in r
      ensures (forall u :: 0 <= u < |neighbors| && u !in nodes ==> neighbors[u] == {}) ==> r <= nodes
    {
      set v | 0 <= v < |neighbors| && |neighbors[v]| == 1
    }

    /**
      Removes a live node (main.py:130-150): it leaves every neighbour's set,
      every neighbour left with one neighbour joins the frontier, its own set
      is cleared and it leaves the nodes and the frontier. Its colour stays.
      It may be called while `node` itself has just been taken off the frontier.
     */
    method RemoveNode(node: int)
      requires Structure() && FrontierComplete(nodes, neighbors, leaves, {node})
      requires node in nodes
      modifies this`nodes, this`neighbors, this`leaves
      ensures Valid()
      ensures nodes == old(nodes) - {node}
      ensures neighbors == Detach(old(neighbors), node)
      ensures leaves == (old(leaves) + Promoted(old(neighbors), node)) - {node}
    {
      ghost var nb0, leaves0 := neighbors, leaves;
      assert node in NodeIds(m + 1);
      assert forall u :: u in nb0[node] ==> 0 <= u < |nb0|;
      var todo := neighbors[node];
      while |todo| > 0
        invariant todo <= nb0[node]
        invariant forall u :: u in nb0[node] ==> 0 <= u < |nb0|
        invariant nodes == old(nodes)
        invariant neighbors == CutFrom(nb0, node, nb0[node] - todo)
        invariant leaves == leaves0 + PromotedAmong(nb0, node, nb0[node] - todo)
        decreases todo
      {
        var next :| next in todo;
        CutFromStep(nb0, node, todo, next, neighbors);
        PromotedAmongStep(nb0, node, todo, next, leaves0, leaves);
        neighbors := neighbors[next := neighbors[next] - {node}];
        if |neighbors[next]| == 1 {
          leaves := leaves + {next};
        }
        todo := todo - {next};
      }
      assert nb0[node] - todo == nb0[node];
      neighbors := neighbors[node := {}];
      nodes := nodes - {node};
      leaves := leaves - {node};
      DetachKeepsShape(old(nodes), nb0, leaves0, node);
    }

    /**
      Whether edge (u, v) completes a red-blue path (main.py:152-170): one
      end is red and the other blue. Only the colours are read, so a removed
      node's colour still counts.
     */
    function PathFound(u: int, v: int): (found: bool)
      reads this
      requires 0 <= u < |colors| && 0 <= v < |colors|
      ensures found <==> (colors[u], colors[v]) in {(Red, Blue), (Blue, Red)}
      ensures found <==> (colors[v], colors[u]) in {(Red, Blue), (Blue, Red)}
    {
      colors[u] != None && colors[v] != None && colors[u] != colors[v]
    }

    /**
      Hands the colour of `leaf` to `node` when `leaf` is coloured
      (main.py:172-188); nothing else changes.
     */
    method PushColor(leaf: int, node: int)
      requires 0 <= leaf < |colors| && 0 <= node < |colors|
      modifies this`colors
      ensures colors == if old(colors[leaf]) == None then old(colors) else old(colors)[node := old(colors[leaf])]
      ensures |colors| == |old(colors)|
      ensures forall v :: 0 <= v < |colors| && old(colors[v]) != None ==> colors[v] != None
    {
      if colors[leaf] != None {
        colors := colors[node := colors[leaf]];
      }
    }

    /**
      One round of the reduction loop (main.py:207-230): takes a node `leaf`
      off the frontier and removes it. An isolated leaf counts no path and
      changes no colour or neighbour set; a leaf with a neighbour is handled
      by `ReduceEdge`. Neighbour sets and frontier change only by these
      removals. The round keeps the invariant and the account of live red
      and blue nodes.
     */
    method ReduceLeaf(ghost paths: nat, ghost nodesIn: set<int>, ghost colorsIn: seq<Color>)
      returns (leaf: int, found: bool, ghost y: int)
      requires Valid() && |leaves| > 0
      requires Accounted(nodes, colors, paths, nodesIn, colorsIn)
      modifies this`nodes, this`neighbors, this`leaves, this`colors
      ensures Valid()
      ensures leaf in old(leaves) && leaf !in nodes && 0 <= leaf < |old(neighbors)|
      ensures old(neighbors)[leaf] == {} ==> !found && nodes == old(nodes) - {leaf} && colors == old(colors)
      ensures old(neighbors)[leaf] != {} ==>
        && old(neighbors)[leaf] == {y} && 0 <= y < |old(colors)|
        && (found <==> (old(colors)[leaf], old(colors)[y]) in {(Red, Blue), (Blue, Red)})
        && nodes == old(nodes) - {leaf} - (if found then {y} else {})
        && colors == if found || old(colors)[leaf] == None then old(colors) else old(colors)[y := old(colors)[leaf]]
      ensures old(neighbors)[leaf] == {} ==> (neighbors == old(neighbors) && leaves == old(leaves) - {leaf})
      ensures old(neighbors)[leaf] != {} && !found ==> (neighbors == Detach(old(neighbors), leaf)
        && leaves == ((old(leaves) - {leaf}) + Promoted(old(neighbors), leaf)) - {leaf})
      ensures old(neighbors)[leaf] != {} && found ==> (|Detach(old(neighbors), leaf)| == |old(neighbors)|
        && neighbors == Detach(Detach(old(neighbors), leaf), y)
        && leaves == ((((old(leaves) - {leaf}) + Promoted(old(neighbors), leaf)) - {leaf})
                      + Promoted(Detach(old(neighbors), leaf), y)) - {y})
      ensures nodes <= old(nodes) && |nodes| == |old(nodes)| - if found then 2 else 1
      ensures Accounted(nodes, colors, if found then paths + 1 else paths, nodesIn, colorsIn)
    {
      leaf :| leaf in leaves;
      PopKeepsShape(nodes, neighbors, leaves, leaf);
      leaves := leaves - {leaf};
      if neighbors[leaf] == {} {
        ghost var nodes0, colors0, nb0 := nodes, colors, neighbors;
        DetachIsolated(nb0, leaf);
        RemoveNode(leaf);
        AccountedRemove(nodes0, colors0, paths, nodesIn, colorsIn, leaf);
        return leaf, false, 0;
      }
      found, y := ReduceEdge(leaf, paths, nodesIn, colorsIn);
    }

    /**
      The rest of a round for a popped `leaf` with a neighbour `y`
      (main.py:221-230): `leaf` is removed; `found` tells whether the two
      have opposite colours; if so `y` is removed too, else the colour of
      `leaf` (when it has one) moves to `y`. Neighbour sets and frontier are
      those the one or two removals leave.
     */
    method ReduceEdge(leaf: int, ghost paths: nat, ghost nodesIn: set<int>, ghost colorsIn: seq<Color>)
      returns (found: bool, ghost y: int)
      requires Structure() && FrontierComplete(nodes, neighbors, leaves, {leaf})
      requires leaf in nodes && 0 <= leaf < |neighbors| && neighbors[leaf] != {} && |neighbors[leaf]| <= 1
      requires Accounted(nodes, colors, paths, nodesIn, colorsIn)
      modifies this`nodes, this`neighbors, this`leaves, this`colors
      ensures Valid()
      ensures old(neighbors)[leaf] == {y} && 0 <= y < |old(colors)|
      ensures found <==> (old(colors)[leaf], old(colors)[y]) in {(Red, Blue), (Blue, Red)}
      ensures nodes == old(nodes) - {leaf} - (if found then {y} else {})
      ensures colors == if found || old(colors)[leaf] == None then old(colors) else old(colors)[y := old(colors)[leaf]]
      ensures !found ==> (neighbors == Detach(old(neighbors), leaf)
                          && leaves == (old(leaves) + Promoted(old(neighbors), leaf)) - {leaf})
      ensures found ==> (|Detach(old(neighbors), leaf)| == |old(neighbors)|
                         && neighbors == Detach(Detach(old(neighbors), leaf), y)
                         && leaves == (((old(leaves) + Promoted(old(neighbors), leaf)) - {leaf})
                                       + Promoted(Detach(old(neighbors), leaf), y)) - {y})
      ensures nodes <= old(nodes) && |nodes| == |old(nodes)| - if found then 2 else 1
      ensures Accounted(nodes, colors, if found then paths + 1 else paths, nodesIn, colorsIn)
    {
      ghost var nodes0, colors0, nb0 := nodes, colors, neighbors;
      var neighbor :| neighbor in neighbors[leaf];
      y := neighbor;
      LiveNeighbor(nodes, neighbors, leaf, neighbor);
      OnlyMember(nb0[leaf], neighbor);
      RemoveNode(leaf);
      found := PathFound(leaf, neighbor);
      if found {
        CompleteOutside(nodes, neighbors, leaves, neighbor);
        RemoveNode(neighbor);
        AccountedPath(nodes0, colors0, paths, nodesIn, colorsIn, leaf, neighbor);
        assert nodes == nodes0 - {leaf} - {neighbor} && colors == colors0;
      } else {
        PushColor(leaf, neighbor);
        if colors0[leaf] == None {
          AccountedRemove(nodes0, colors0, paths, nodesIn, colorsIn, leaf);
        } else {
          AccountedPush(nodes0, colors0, paths, nodesIn, colorsIn, leaf, neighbor);
        }
        assert nodes == nodes0 - {leaf} - {};
      }
    }

    /**
      The reduction (main.py:190-236): rounds of `ReduceLeaf` until the
      frontier is empty, counting the paths found. Every round removes one
      or two nodes, every counted path two, each path uses up one live red
      and one live blue node, and no colour is ever cleared.
     */
    method CountPaths() returns (paths: nat)
      requires Valid()
      modifies this`nodes, this`neighbors, this`leaves, this`colors
      ensures Valid()
      ensures leaves == {} && forall v :: v in nodes ==> |neighbors[v]| != 1
      ensures nodes <= old(nodes)
      ensures 2 * paths <= |old(nodes)| - |nodes|
      ensures paths <= |ColoredIn(old(nodes), old(colors), Red)|
      ensures paths <= |ColoredIn(old(nodes), old(colors), Blue)|
      ensures |colors| == |old(colors)|
      ensures forall v :: 0 <= v < |colors| && old(colors)[v] != None ==> colors[v] != None
      ensures forall v :: 0 <= v < |colors| && v !in old(nodes) ==> colors[v] == old(colors)[v]
    {
      paths := 0;
      ghost var nodesIn, colorsIn := nodes, colors;
      while |leaves| > 0
        invariant Valid()
        invariant Accounted(nodes, colors, paths, nodesIn, colorsIn)
        decreases |nodes|
      {
        var leaf, found, _ := ReduceLeaf(paths, nodesIn, colorsIn);
        if found {
          paths := paths + 1;
        }
      }
    }
  }
}
