/**
  Value-level vocabulary of the red-blue path counter: the three node colours,
  what a parsed edge list says about adjacency, and how many live nodes carry
  a colour. The class in graph.dfy is specified in these terms.
 */
module GraphValues {

  /** The colour of a node: uncoloured, red or blue (main.py:19-21). */
  datatype Color = None | Red | Blue

  /** A parsed edge line `u v`. */
  type Edge = (int, int)

  /** The node ids 1..n (`set(range(1, n + 1))`). */
  function NodeIds(n: nat): (ids: set<int>)
    ensures |ids| == n
    ensures forall v :: v in ids <==> 1 <= v <= n
  {
    if n == 0 then {} else NodeIds(n - 1) + {n}
  }

  /** Some listed edge joins `u` and `v`, in either orientation. */
  ghost predicate Adjacent(edges: seq<Edge>, u: int, v: int)
  {
    exists i :: 0 <= i < |edges| && (edges[i] == (u, v) || edges[i] == (v, u))
  }

  /** Some edge among the first `k` listed joins `u` and `v`. */
  ghost predicate AdjacentWithin(edges: seq<Edge>, k: int, u: int, v: int)
  {
    exists i :: 0 <= i < k && i < |edges| && (edges[i] == (u, v) || edges[i] == (v, u))
  }

  /** Every id of an edge is a node id `1..m+1` and no edge is a self-loop. */
  predicate EdgesWellFormed(m: nat, edges: seq<Edge>)
  {
    forall i :: 0 <= i < |edges| ==>
      1 <= edges[i].0 <= m + 1 && 1 <= edges[i].1 <= m + 1 && edges[i].0 != edges[i].1
  }

  /** Every listed id indexes a colour slot `0..size-1`. */
  predicate IdsBelow(ids: seq<int>, size: int)
  {
    forall i :: 0 <= i < |ids| ==> 0 <= ids[i] < size
  }

  /** The colour construction gives `v`: blue is written last, so it wins. */
  function InitialColor(red: seq<int>, blue: seq<int>, v: int): Color
  {
    if v in blue then Blue else if v in red then Red else None
  }

  /**
    Adjacency relates live nodes only, symmetrically: `v` is a neighbour of
    `u` exactly when `u` is a neighbour of `v`.
   */
  ghost predicate Symmetric(nodes: set<int>, nb: seq<set<int>>)
  {
    forall u, v {:trigger v in nb[u]} :: 0 <= u < |nb| && v in nb[u] ==> u in nodes && v in nodes && 0 <= v < |nb| && u in nb[v]
  }

  /** No id is its own neighbour. */
  ghost predicate LoopFree(nb: seq<set<int>>)
  {
    forall u :: 0 <= u < |nb| ==> u !in nb[u]
  }

  /** The frontier holds live nodes with at most one neighbour each. */
  ghost predicate FrontierSound(nodes: set<int>, nb: seq<set<int>>, leaves: set<int>)
  {
    leaves <= nodes && forall v :: v in leaves ==> 0 <= v < |nb| && |nb[v]| <= 1
  }

  /** Every live node outside `skip` with exactly one neighbour is on the frontier. */
  ghost predicate FrontierComplete(nodes: set<int>, nb: seq<set<int>>, leaves: set<int>, skip: set<int>)
  {
    forall v :: v in nodes && v !in skip && 0 <= v < |nb| && |nb[v]| == 1 ==> v in leaves
  }

  /** The shape of the graph's state, short of frontier completeness. */
  ghost predicate Shaped(nodes: set<int>, nb: seq<set<int>>, leaves: set<int>)
  {
    Symmetric(nodes, nb) && LoopFree(nb) && FrontierSound(nodes, nb, leaves)
  }

  /** The neighbour sets once `x` has been taken out of the set of every id in `done`. */
  function CutFrom(nb: seq<set<int>>, x: int, done: set<int>): seq<set<int>>
  {
    seq(|nb|, i requires 0 <= i < |nb| => if i in done then nb[i] - {x} else nb[i])
  }

  /** The ids in `done` left with a single neighbour once `x` is taken out of their sets. */
  ghost function PromotedAmong(nb: seq<set<int>>, x: int, done: set<int>): set<int>
  {
    set u | u in done && 0 <= u < |nb| && |nb[u] - {x}| == 1
  }

  /** The neighbour sets once `x` is cut off: it leaves each neighbour's set and its own is emptied. */
  function Detach(nb: seq<set<int>>, x: int): seq<set<int>>
    requires 0 <= x < |nb|
  {
    CutFrom(nb, x, nb[x])[x := {}]
  }

  /** The neighbours of `x` that are left with a single neighbour once `x` is cut off. */
  ghost function Promoted(nb: seq<set<int>>, x: int): set<int>
    requires 0 <= x < |nb|
  {
    PromotedAmong(nb, x, nb[x])
  }

  /**
    What cutting off `x` means in a symmetric, loop-free adjacency: `x` has no
    neighbours left, every other id has lost exactly `x`, and the promoted ids
    are exactly the former neighbours of `x` left with one neighbour.
   */
  lemma DetachMeaning(nodes: set<int>, nb: seq<set<int>>, x: int)
    requires Symmetric(nodes, nb) && LoopFree(nb) && 0 <= x < |nb|
    ensures |Detach(nb, x)| == |nb| && Detach(nb, x)[x] == {}
    ensures forall u :: 0 <= u < |nb| && u != x ==> Detach(nb, x)[u] == nb[u] - {x}
    ensures forall u :: u in Promoted(nb, x) <==> u in nb[x] && |Detach(nb, x)[u]| == 1
    ensures forall u :: 0 <= u < |nb| ==> x !in Detach(nb, x)[u]
  {
    forall u | 0 <= u < |nb| && u != x
      ensures Detach(nb, x)[u] == nb[u] - {x}
    {
      if u !in nb[x] {
        assert x !in nb[u];
      }
    }
  }

  /** Cutting off a node without neighbours changes no set and promotes nobody. */
  lemma DetachIsolated(nb: seq<set<int>>, x: int)
    requires 0 <= x < |nb| && nb[x] == {}
    ensures Detach(nb, x) == nb && Promoted(nb, x) == {}
  {
    assert forall i :: 0 <= i < |nb| ==> Detach(nb, x)[i] == nb[i];
  }

  /**
    One round of the removal loop: `y`, still to be visited among the
    neighbours of `x`, loses `x` from its set.
   */
  lemma CutFromStep(nb: seq<set<int>>, x: int, todo: set<int>, y: int, cut: seq<set<int>>)
    requires 0 <= x < |nb| && 0 <= y < |nb| && y in todo && y in nb[x]
    requires cut == CutFrom(nb, x, nb[x] - todo)
    ensures 0 <= y < |cut| && cut[y] == nb[y]
    ensures cut[y := cut[y] - {x}] == CutFrom(nb, x, nb[x] - (todo - {y}))
  {
    var after := CutFrom(nb, x, nb[x] - (todo - {y}));
    forall i | 0 <= i < |nb|
      ensures cut[y := cut[y] - {x}][i] == after[i]
    {
      assert i in nb[x] - (todo - {y}) <==> i in nb[x] - todo || i == y;
    }
  }

  /**
    One round of the removal loop: the frontier gains `y` exactly when `y`
    is left with one neighbour.
   */
  lemma PromotedAmongStep(nb: seq<set<int>>, x: int, todo: set<int>, y: int, base: set<int>, lv: set<int>)
    requires 0 <= x < |nb| && 0 <= y < |nb| && y in todo && y in nb[x]
    requires lv == base + PromotedAmong(nb, x, nb[x] - todo)
    ensures (if |nb[y] - {x}| == 1 then lv + {y} else lv) == base + PromotedAmong(nb, x, nb[x] - (todo - {y}))
  {
    assert PromotedAmong(nb, x, nb[x] - (todo - {y}))
           == PromotedAmong(nb, x, nb[x] - todo) + (if |nb[y] - {x}| == 1 then {y} else {});
  }

  /**
    Cutting off a live node `x` (which may itself be missing from the
    frontier), and adding the neighbours it leaves with one neighbour to the
    frontier, yields a shaped state whose frontier is complete.
   */
  lemma DetachKeepsShape(nodes: set<int>, nb: seq<set<int>>, leaves: set<int>, x: int)
    requires x in nodes && 0 <= x < |nb|
    requires Shaped(nodes, nb, leaves) && FrontierComplete(nodes, nb, leaves, {x})
    ensures Shaped(nodes - {x}, Detach(nb, x), (leaves + Promoted(nb, x)) - {x})
    ensures FrontierComplete(nodes - {x}, Detach(nb, x), (leaves + Promoted(nb, x)) - {x}, {})
  {
    DetachSymmetric(nodes, nb, x);
    DetachSound(nodes, nb, leaves, x);
    DetachComplete(nodes, nb, leaves, x);
  }

  /** Cutting off a live node keeps the adjacency symmetric among the remaining nodes. */
  lemma DetachSymmetric(nodes: set<int>, nb: seq<set<int>>, x: int)
    requires x in nodes && 0 <= x < |nb|
    requires Symmetric(nodes, nb) && LoopFree(nb)
    ensures Symmetric(nodes - {x}, Detach(nb, x)) && LoopFree(Detach(nb, x))
  {
    var nodes', nb' := nodes - {x}, Detach(nb, x);
    forall u, v | 0 <= u < |nb'| && v in nb'[u]
      ensures u in nodes' && v in nodes' && 0 <= v < |nb'| && u in nb'[v]
    {
      assert u != x;
      assert nb'[u] == nb[u] - {x};
      assert v in nb[u] && v != x;
      assert nb'[v] == nb[v] - {x};
    }
  }

  /** After the cut, the old frontier and the promoted neighbours have at most one neighbour each. */
  lemma DetachSound(nodes: set<int>, nb: seq<set<int>>, leaves: set<int>, x: int)
    requires x in nodes && 0 <= x < |nb|
    requires Symmetric(nodes, nb) && FrontierSound(nodes, nb, leaves)
    ensures FrontierSound(nodes - {x}, Detach(nb, x), (leaves + Promoted(nb, x)) - {x})
  {
    var nb', leaves' := Detach(nb, x), (leaves + Promoted(nb, x)) - {x};
    forall v | v in leaves'
      ensures 0 <= v < |nb'| && |nb'[v]| <= 1
    {
      if v !in Promoted(nb, x) {
        assert nb'[v] <= nb[v];
        SubsetCard(nb'[v], nb[v]);
      }
    }
  }

  /** After the cut, every remaining node with exactly one neighbour is on the new frontier. */
  lemma DetachComplete(nodes: set<int>, nb: seq<set<int>>, leaves: set<int>, x: int)
    requires x in nodes && 0 <= x < |nb|
    requires Symmetric(nodes, nb) && FrontierComplete(nodes, nb, leaves, {x})
    ensures FrontierComplete(nodes - {x}, Detach(nb, x), (leaves + Promoted(nb, x)) - {x}, {})
  {
    var nodes', nb', leaves' := nodes - {x}, Detach(nb, x), (leaves + Promoted(nb, x)) - {x};
    forall v | v in nodes' && 0 <= v < |nb'| && |nb'[v]| == 1
      ensures v in leaves'
    {
      if x in nb[v] {
        assert v in nb[x];
      } else {
        assert nb'[v] == nb[v];
      }
    }
  }

  /**
    Taking a node `x` off the frontier keeps the shape; the frontier is then
    complete except possibly at `x`, which is live with at most one neighbour.
   */
  lemma PopKeepsShape(nodes: set<int>, nb: seq<set<int>>, leaves: set<int>, x: int)
    requires Shaped(nodes, nb, leaves) && FrontierComplete(nodes, nb, leaves, {}) && x in leaves
    ensures Shaped(nodes, nb, leaves - {x}) && FrontierComplete(nodes, nb, leaves - {x}, {x})
    ensures x in nodes && 0 <= x < |nb| && |nb[x]| <= 1
  {
  }

  /** A neighbour of `x` is another live node that has `x` as its neighbour. */
  lemma LiveNeighbor(nodes: set<int>, nb: seq<set<int>>, x: int, y: int)
    requires Symmetric(nodes, nb) && LoopFree(nb) && 0 <= x < |nb| && y in nb[x]
    ensures y in nodes && y != x && 0 <= y < |nb| && x in nb[y]
  {
  }

  /** A set of at most one element that holds `y` is exactly `{y}`. */
  lemma OnlyMember(s: set<int>, y: int)
    requires |s| <= 1 && y in s
    ensures s == {y}
  {
    assert |s - {y}| == |s| - 1;
    assert s - {y} == {};
  }

  /** A frontier complete everywhere is complete outside `{x}`. */
  lemma CompleteOutside(nodes: set<int>, nb: seq<set<int>>, leaves: set<int>, x: int)
    requires FrontierComplete(nodes, nb, leaves, {})
    ensures FrontierComplete(nodes, nb, leaves, {x})
  {
  }

  /**
    The neighbour sets built from well-formed edges relate the node ids
    1..m+1 symmetrically and without self-loops; id 0 has no neighbours.
   */
  lemma InitialShape(m: nat, edges: seq<Edge>, nb: seq<set<int>>)
    requires EdgesWellFormed(m, edges) && |nb| == m + 2
    requires forall u, v :: 0 <= u < m + 2 ==> (v in nb[u] <==> Adjacent(edges, u, v))
    ensures Symmetric(NodeIds(m + 1), nb) && LoopFree(nb)
    ensures forall u :: 0 <= u < |nb| && u !in NodeIds(m + 1) ==> nb[u] == {}
  {
    forall u, v | 0 <= u < |nb| && v in nb[u]
      ensures u in NodeIds(m + 1) && v in NodeIds(m + 1) && 0 <= v < |nb| && u in nb[v]
    {
      var i :| 0 <= i < |edges| && (edges[i] == (u, v) || edges[i] == (v, u));
    }
    forall u | 0 <= u < |nb| && u !in NodeIds(m + 1)
      ensures nb[u] == {}
    {
      forall v | v in nb[u] ensures false {
        var i :| 0 <= i < |edges| && (edges[i] == (u, v) || edges[i] == (v, u));
      }
    }
  }

  /** The live nodes whose recorded colour is `c`. */
  ghost function ColoredIn(nodes: set<int>, colors: seq<Color>, c: Color): set<int>
  {
    set v | v in nodes && 0 <= v < |colors| && colors[v] == c
  }

  /** A subset is no larger than its superset. */
  lemma SubsetCard(a: set<int>, b: set<int>)
    requires a <= b
    ensures |a| <= |b|
  {
    assert b == a + (b - a);
  }

  /**
    What the reduction has spent so far, measured against the state
    (`nodes0`, `colors0`) it started from: it only removed nodes, at least
    two per counted path; every counted path used up one live red and one
    live blue node; no colour was cleared; a removed node's colour is frozen.
   */
  ghost predicate Accounted(nodes: set<int>, colors: seq<Color>, paths: nat, nodes0: set<int>, colors0: seq<Color>)
  {
    && nodes <= nodes0
    && 2 * paths + |nodes| <= |nodes0|
    && paths + |ColoredIn(nodes, colors, Red)| <= |ColoredIn(nodes0, colors0, Red)|
    && paths + |ColoredIn(nodes, colors, Blue)| <= |ColoredIn(nodes0, colors0, Blue)|
    && |colors| == |colors0|
    && (forall v :: 0 <= v < |colors| && colors0[v] != None ==> colors[v] != None)
    && (forall v :: 0 <= v < |colors| && v !in nodes0 ==> colors[v] == colors0[v])
  }

  /** Removing a live node without counting a path keeps the account. */
  lemma AccountedRemove(nodes: set<int>, colors: seq<Color>, paths: nat, nodes0: set<int>, colors0: seq<Color>, x: int)
    requires Accounted(nodes, colors, paths, nodes0, colors0)
    requires x in nodes && 0 <= x < |colors|
    ensures Accounted(nodes - {x}, colors, paths, nodes0, colors0) && |nodes - {x}| == |nodes| - 1
  {
    ColoredRemove(nodes, colors, Red, x);
    ColoredRemove(nodes, colors, Blue, x);
  }

  /** Removing two live nodes of opposite colours pays for one more path. */
  lemma AccountedPath(nodes: set<int>, colors: seq<Color>, paths: nat, nodes0: set<int>, colors0: seq<Color>, x: int, y: int)
    requires Accounted(nodes, colors, paths, nodes0, colors0)
    requires x in nodes && y in nodes && x != y && 0 <= x < |colors| && 0 <= y < |colors|
    requires (colors[x], colors[y]) in {(Red, Blue), (Blue, Red)}
    ensures Accounted(nodes - {x} - {y}, colors, paths + 1, nodes0, colors0) && |nodes - {x} - {y}| == |nodes| - 2
  {
    ColoredRemove(nodes, colors, Red, x);
    ColoredRemove(nodes, colors, Blue, x);
    ColoredRemove(nodes - {x}, colors, Red, y);
    ColoredRemove(nodes - {x}, colors, Blue, y);
  }

  /**
    Removing a coloured live node and handing its colour to another live
    node, whatever that node's own colour, keeps the account.
   */
  lemma AccountedPush(nodes: set<int>, colors: seq<Color>, paths: nat, nodes0: set<int>, colors0: seq<Color>, x: int, y: int)
    requires Accounted(nodes, colors, paths, nodes0, colors0)
    requires x in nodes && y in nodes && x != y && 0 <= x < |colors| && 0 <= y < |colors|
    requires colors[x] != None
    ensures Accounted(nodes - {x}, colors[y := colors[x]], paths, nodes0, colors0) && |nodes - {x}| == |nodes| - 1
  {
    ColoredPush(nodes, colors, Red, x, y);
    ColoredPush(nodes, colors, Blue, x, y);
  }

  /** Removing one live node lowers the count of colour `c` by one exactly when it had colour `c`. */
  lemma ColoredRemove(nodes: set<int>, colors: seq<Color>, c: Color, x: int)
    requires x in nodes && 0 <= x < |colors|
    ensures |ColoredIn(nodes - {x}, colors, c)| + (if colors[x] == c then 1 else 0)
            == |ColoredIn(nodes, colors, c)|
  {
    var before, after := ColoredIn(nodes, colors, c), ColoredIn(nodes - {x}, colors, c);
    assert after == before - {x};
    if colors[x] == c {
      assert x in before;
    } else {
      assert after == before;
    }
  }

  /**
    Removing live node `x` and handing its colour to live node `y`, whatever
    the colour of `y`, never raises the count of any colour.
   */
  lemma ColoredPush(nodes: set<int>, colors: seq<Color>, c: Color, x: int, y: int)
    requires x in nodes && y in nodes && x != y
    requires 0 <= x < |colors| && 0 <= y < |colors|
    ensures |ColoredIn(nodes - {x}, colors[y := colors[x]], c)| <= |ColoredIn(nodes, colors, c)|
  {
    if c == colors[x] {
      ColoredPushSame(nodes, colors, x, y);
    } else {
      ColoredPushOther(nodes, colors, c, x, y);
    }
  }

  /** The colour handed on is lost by `x` and gained at most by `y`. */
  lemma ColoredPushSame(nodes: set<int>, colors: seq<Color>, x: int, y: int)
    requires x in nodes && 0 <= x < |colors| && 0 <= y < |colors|
    ensures |ColoredIn(nodes - {x}, colors[y := colors[x]], colors[x])| <= |ColoredIn(nodes, colors, colors[x])|
  {
    var before, after := ColoredIn(nodes, colors, colors[x]), ColoredIn(nodes - {x}, colors[y := colors[x]], colors[x]);
    assert x in before;
    assert after <= (before - {x}) + {y};
    SubsetCard(after, (before - {x}) + {y});
  }

  /** Any other colour is at most lost, by `x` or by `y`. */
  lemma ColoredPushOther(nodes: set<int>, colors: seq<Color>, c: Color, x: int, y: int)
    requires 0 <= x < |colors| && 0 <= y < |colors| && c != colors[x]
    ensures |ColoredIn(nodes - {x}, colors[y := colors[x]], c)| <= |ColoredIn(nodes, colors, c)|
  {
    var before, after := ColoredIn(nodes, colors, c), ColoredIn(nodes - {x}, colors[y := colors[x]], c);
    assert after <= before;
    SubsetCard(after, before);
  }
}
