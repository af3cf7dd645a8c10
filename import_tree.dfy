/** The timing tree both renderers read (importtime_waterfall.py lines 28-32), and the two
    orders they walk it in. */
module ImportTree {

  /** One imported module: its name, the self and cumulative times copied from its trace line,
      and the modules it imported, in the order they appear in the trace. The renderers never
      change a tree, so it is a value here. */
  datatype Import = Import(name: string, selfTime: int, cumulativeTime: int, children: seq<Import>)

  /** Number of nodes in a tree, the tree's own root included. */
  function Size(x: Import): nat
    decreases x, 1
  {
    1 + ForestSize(x.children)
  }

  function ForestSize(xs: seq<Import>): nat
    decreases xs, 0
  {
    if xs == [] then 0 else Size(xs[0]) + ForestSize(xs[1..])
  }

  /** A node together with the depth at which a walk meets it. */
  datatype Placed = Placed(node: Import, depth: nat)

  /** Pre-order: a node, then the walks of its children one level deeper, left to right. */
  function Walk(x: Import, depth: nat): (w: seq<Placed>)
    ensures |w| == Size(x) && w[0] == Placed(x, depth)
    decreases x, 1
  {
    [Placed(x, depth)] + ForestWalk(x.children, depth + 1)
  }

  function ForestWalk(xs: seq<Import>, depth: nat): (w: seq<Placed>)
    ensures |w| == ForestSize(xs)
    decreases xs, 0
  {
    if xs == [] then [] else Walk(xs[0], depth) + ForestWalk(xs[1..], depth)
  }

  /** Post-order: the children's post-orders left to right, then the node itself. */
  function PostOrder(x: Import): (p: seq<Import>)
    ensures |p| == Size(x) && p[|p| - 1] == x
    decreases x, 1
  {
    ForestPostOrder(x.children) + [x]
  }

  function ForestPostOrder(xs: seq<Import>): (p: seq<Import>)
    ensures |p| == ForestSize(xs)
    decreases xs, 0
  {
    if xs == [] then [] else PostOrder(xs[0]) + ForestPostOrder(xs[1..])
  }

  /** The nodes of a tree, the root first: the nodes a walk meets, without their depths. */
  function Nodes(x: Import): (ns: seq<Import>)
    ensures |ns| == Size(x) && ns[0] == x
    decreases x, 1
  {
    [x] + ForestNodes(x.children)
  }

  function ForestNodes(xs: seq<Import>): (ns: seq<Import>)
    ensures |ns| == ForestSize(xs)
    decreases xs, 0
  {
    if xs == [] then [] else Nodes(xs[0]) + ForestNodes(xs[1..])
  }

  /** A node of a forest is a node of one of its trees. */
  lemma {:induction false} ForestNodesMember(xs: seq<Import>, y: Import)
    ensures y in ForestNodes(xs) <==> exists j :: 0 <= j < |xs| && y in Nodes(xs[j])
    decreases xs
  {
    if xs != [] {
      ForestNodesMember(xs[1..], y);
      if y in Nodes(xs[0]) {
        assert 0 < |xs| && y in Nodes(xs[0]);
      }
      if exists j :: 0 <= j < |xs| && y in Nodes(xs[j]) {
        var j :| 0 <= j < |xs| && y in Nodes(xs[j]);
        if j > 0 {
          assert xs[1..][j - 1] == xs[j];
        }
      }
    }
  }

  /** Every node a walk starting at `depth` meets lies at that depth or below. */
  lemma {:induction false} ForestWalkDepths(xs: seq<Import>, depth: nat)
    ensures forall i :: 0 <= i < |ForestWalk(xs, depth)| ==> ForestWalk(xs, depth)[i].depth >= depth
    decreases xs
  {
    if xs != [] {
      var x := xs[0];
      ForestWalkDepths(x.children, depth + 1);
      ForestWalkDepths(xs[1..], depth);
      var w, inner, rest := ForestWalk(xs, depth), ForestWalk(x.children, depth + 1), ForestWalk(xs[1..], depth);
      assert Walk(x, depth) == [Placed(x, depth)] + inner;
      assert w == Walk(x, depth) + rest;
      forall i | 0 <= i < |w| ensures w[i].depth >= depth {
        if 1 <= i < 1 + |inner| {
          assert w[i] == inner[i - 1];
        } else if i >= 1 + |inner| {
          assert w[i] == rest[i - 1 - |inner|];
        }
      }
    }
  }

  /** A walk meets the nodes of the forest in the order ForestNodes lists them. */
  lemma {:induction false} ForestWalkNodes(xs: seq<Import>, depth: nat)
    ensures forall i :: 0 <= i < |ForestWalk(xs, depth)| ==> ForestWalk(xs, depth)[i].node == ForestNodes(xs)[i]
    decreases xs
  {
    if xs != [] {
      var x := xs[0];
      ForestWalkNodes(x.children, depth + 1);
      ForestWalkNodes(xs[1..], depth);
      var w, inner, rest := ForestWalk(xs, depth), ForestWalk(x.children, depth + 1), ForestWalk(xs[1..], depth);
      var ns, innerNs, restNs := ForestNodes(xs), ForestNodes(x.children), ForestNodes(xs[1..]);
      assert Walk(x, depth) == [Placed(x, depth)] + inner;
      assert w == Walk(x, depth) + rest;
      assert Nodes(x) == [x] + innerNs;
      assert ns == Nodes(x) + restNs;
      forall i | 0 <= i < |w| ensures w[i].node == ns[i] {
        if i == 0 {
        } else if i < 1 + |inner| {
          assert w[i] == inner[i - 1] && ns[i] == innerNs[i - 1];
        } else {
          assert w[i] == rest[i - 1 - |inner|] && ns[i] == restNs[i - 1 - |inner|];
        }
      }
    }
  }

  /** The walks of a forest are the walks of its trees, one after the other: tree j's walk starts
      right after the nodes of the trees before it. */
  lemma {:induction false} ForestWalkAt(xs: seq<Import>, depth: nat, j: nat)
    requires j < |xs|
    ensures ForestSize(xs[..j]) + Size(xs[j]) <= ForestSize(xs)
    ensures ForestWalk(xs, depth)[ForestSize(xs[..j])] == Placed(xs[j], depth)
    decreases xs
  {
    if j > 0 {
      ForestWalkAt(xs[1..], depth, j - 1);
      assert xs[1..][..j - 1] == xs[..j][1..];
      assert xs[1..][j - 1] == xs[j];
    }
  }
}
