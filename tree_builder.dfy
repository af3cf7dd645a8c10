/** The parse loop of `main` (importtime_waterfall.py lines 180-209). It reads the stderr lines
    last to first and rebuilds the import tree with a stack.

    In the program the stack holds the same Import objects whose `children` lists it later
    extends, so nodes are shared between the stack and the tree. Here the nodes live in an
    arena (a sequence indexed by node id, with id 0 for the root), children are lists of ids,
    and the stack holds ids. */
module TreeBuilder {
  import opened Wrappers
  import opened PyText
  import opened TraceLine
  import opened ImportTree

  /** An Import under construction, its children given by id. */
  datatype Node = Node(name: string, selfTime: int, cumulativeTime: int, children: seq<nat>)

  /** The loop's state: every node made so far, and the import stack, bottom first. */
  datatype Builder = Builder(nodes: seq<Node>, stack: seq<nat>)

  datatype TraceError =
    | UnpackError(fields: nat)   // a marked line that does not split into three fields (line 186)
    | EmptyStack                 // the pop loop emptied the stack; `import_stack[-1]` fails (line 203)

  /** `Import(name='root', self_time=0, cumulative_time=0, children=[])`, line 180. */
  const Root := Node("root", 0, 0, [])

  /** Every child id points to a later node of the arena. */
  ghost predicate Linked(nodes: seq<Node>) {
    forall p, j :: 0 <= p < |nodes| && 0 <= j < |nodes[p].children| ==> p < nodes[p].children[j] < |nodes|
  }

  /** Every child list holds ids in decreasing order, the most recently made node first. */
  ghost predicate NewestFirst(nodes: seq<Node>) {
    forall p, i, j :: 0 <= p < |nodes| && 0 <= i < j < |nodes[p].children| ==>
      nodes[p].children[i] > nodes[p].children[j]
  }

  /** Node k is listed among the children of node p. */
  ghost predicate ChildOf(nodes: seq<Node>, k: nat, p: nat) {
    p < |nodes| && k in nodes[p].children
  }

  /** No node is the child of two nodes. */
  ghost predicate SingleParent(nodes: seq<Node>) {
    forall p, q, k :: ChildOf(nodes, k, p) && ChildOf(nodes, k, q) ==> p == q
  }

  ghost predicate HasParent(nodes: seq<Node>, k: nat) {
    exists p :: ChildOf(nodes, k, p)
  }

  /** Every node but the root is somebody's child. */
  ghost predicate HasParents(nodes: seq<Node>) {
    forall k :: 0 < k < |nodes| ==> HasParent(nodes, k)
  }

  /** The arena is a tree rooted at node 0. */
  ghost predicate IsTree(nodes: seq<Node>) {
    |nodes| > 0 && Linked(nodes) && NewestFirst(nodes) && SingleParent(nodes) && HasParents(nodes)
  }

  /** The stack is a chain anchored at the root: it starts at node 0, ends at the newest node,
      and each entry is the first child of the one below it. */
  ghost predicate Chain(b: Builder) {
    && |b.stack| > 0
    && b.stack[0] == 0
    && b.stack[|b.stack| - 1] == |b.nodes| - 1
    && (forall i :: 0 <= i < |b.stack| ==> b.stack[i] < |b.nodes|)
    && (forall i :: 0 <= i < |b.stack| - 1 ==>
          |b.nodes[b.stack[i]].children| > 0 && b.nodes[b.stack[i]].children[0] == b.stack[i + 1])
  }

  ghost predicate Valid(b: Builder) {
    IsTree(b.nodes) && Chain(b)
  }

  /** Ids that are not below the arena's end are nobody's child, and neither is the root. */
  lemma Unlisted(nodes: seq<Node>, k: nat)
    requires Linked(nodes) && (k == 0 || k >= |nodes|)
    ensures forall p :: !ChildOf(nodes, k, p)
  {
  }

  /** Node k can be reached from the root in exactly d child steps. */
  ghost predicate AtDepth(nodes: seq<Node>, k: nat, d: nat)
    decreases d
  {
    if d == 0 then k == 0
    else exists p :: ChildOf(nodes, k, p) && AtDepth(nodes, p, d - 1)
  }

  /** In a tree every node has one depth. */
  lemma {:induction false} DepthUnique(nodes: seq<Node>, k: nat, d1: nat, d2: nat)
    requires IsTree(nodes) && AtDepth(nodes, k, d1) && AtDepth(nodes, k, d2)
    ensures d1 == d2
    decreases d1
  {
    if d1 == 0 || d2 == 0 {
      Unlisted(nodes, 0);
    } else {
      var p1 :| ChildOf(nodes, k, p1) && AtDepth(nodes, p1, d1 - 1);
      var p2 :| ChildOf(nodes, k, p2) && AtDepth(nodes, p2, d2 - 1);
      DepthUnique(nodes, p1, d1 - 1, d2 - 1);
    }
  }

  /** Position i of the stack holds a node at depth i. */
  lemma {:induction false} ChainDepth(b: Builder, i: nat)
    requires Valid(b) && i < |b.stack|
    ensures AtDepth(b.nodes, b.stack[i], i)
  {
    if i > 0 {
      ChainDepth(b, i - 1);
      var p := b.stack[i - 1];
      assert b.nodes[p].children[0] == b.stack[i];
      assert ChildOf(b.nodes, b.stack[i], p);
    }
  }

  lemma {:induction false} ChainStep(b: Builder, i: nat, j: nat)
    requires Valid(b) && i < j < |b.stack|
    ensures b.stack[i] < b.stack[j]
    decreases j - i
  {
    var p := b.stack[i];
    assert b.nodes[p].children[0] == b.stack[i + 1];
    if i + 1 < j {
      ChainStep(b, i + 1, j);
    }
  }

  /** `after` is `before` with node |before| added, childless, as the first child of `parent`. */
  ghost predicate Extends(before: seq<Node>, after: seq<Node>, parent: nat) {
    && parent < |before|
    && |after| == |before| + 1
    && after[|before|].children == []
    && after[parent].children == [|before|] + before[parent].children
    && (forall k :: 0 <= k < |before| && k != parent ==> after[k].children == before[k].children)
  }

  lemma ExtendChildOf(before: seq<Node>, after: seq<Node>, parent: nat)
    requires Extends(before, after, parent)
    ensures forall k, p :: ChildOf(after, k, p) <==> ChildOf(before, k, p) || (k == |before| && p == parent)
  {
    forall k: nat, p: nat ensures ChildOf(after, k, p) <==> ChildOf(before, k, p) || (k == |before| && p == parent) {
      if p == parent {
        assert k in after[p].children <==> k == |before| || k in before[p].children;
      }
    }
  }

  lemma ExtendLinked(before: seq<Node>, after: seq<Node>, parent: nat)
    requires Extends(before, after, parent) && Linked(before)
    ensures Linked(after)
  {
    forall p, j | 0 <= p < |after| && 0 <= j < |after[p].children|
      ensures p < after[p].children[j] < |after|
    {
      if p == parent && j > 0 {
        assert after[p].children[j] == before[p].children[j - 1];
      }
    }
  }

  lemma ExtendNewestFirst(before: seq<Node>, after: seq<Node>, parent: nat)
    requires Extends(before, after, parent) && Linked(before) && NewestFirst(before)
    ensures NewestFirst(after)
  {
    forall p, i, j | 0 <= p < |after| && 0 <= i < j < |after[p].children|
      ensures after[p].children[i] > after[p].children[j]
    {
      if p == parent {
        assert after[p].children[j] == before[p].children[j - 1];
        if i > 0 {
          assert after[p].children[i] == before[p].children[i - 1];
        }
      }
    }
  }

  lemma ExtendSingleParent(before: seq<Node>, after: seq<Node>, parent: nat)
    requires Extends(before, after, parent) && Linked(before) && SingleParent(before)
    ensures SingleParent(after)
  {
    ExtendChildOf(before, after, parent);
    Unlisted(before, |before|);
  }

  lemma ExtendHasParents(before: seq<Node>, after: seq<Node>, parent: nat)
    requires Extends(before, after, parent) && HasParents(before)
    ensures HasParents(after)
  {
    ExtendChildOf(before, after, parent);
    forall k | 0 < k < |after| ensures HasParent(after, k) {
      if k == |before| {
        assert ChildOf(after, k, parent);
      } else {
        assert HasParent(before, k);
        var p :| ChildOf(before, k, p);
        assert ChildOf(after, k, p);
      }
    }
  }

  /** The state after a line: keep the bottom `keep` stack entries, make the new node the first
      child of the top one, and push it. */
  function Attach(b: Builder, keep: nat, node: Node): (r: Builder)
    requires 1 <= keep <= |b.stack| && b.stack[keep - 1] < |b.nodes|
    ensures |r.nodes| == |b.nodes| + 1 && r.nodes[|b.nodes|] == node
    ensures r.stack == b.stack[..keep] + [|b.nodes|]
    ensures r.nodes[b.stack[keep - 1]].children == [|b.nodes|] + b.nodes[b.stack[keep - 1]].children
    ensures forall k :: 0 <= k < |b.nodes| ==>
      && r.nodes[k].name == b.nodes[k].name && r.nodes[k].selfTime == b.nodes[k].selfTime
      && r.nodes[k].cumulativeTime == b.nodes[k].cumulativeTime
      && (k != b.stack[keep - 1] ==> r.nodes[k].children == b.nodes[k].children)
  {
    var id := |b.nodes|;
    var parent := b.stack[keep - 1];
    Builder(
      b.nodes[parent := b.nodes[parent].(children := [id] + b.nodes[parent].children)] + [node],
      b.stack[..keep] + [id])
  }

  /** Attach under the top of `kept`, the bottom of the stack, written out. */
  lemma AttachIs(b: Builder, kept: seq<nat>, node: Node)
    requires 1 <= |kept| <= |b.stack| && kept == b.stack[..|kept|] && kept[|kept| - 1] < |b.nodes|
    ensures var top := kept[|kept| - 1];
      Attach(b, |kept|, node)
      == Builder(b.nodes[top := b.nodes[top].(children := [|b.nodes|] + b.nodes[top].children)] + [node],
                 kept + [|b.nodes|])
  {
  }

  /** Attaching extends the arena under the top kept entry and pushes the new node. */
  lemma AttachShape(b: Builder, keep: nat, node: Node)
    requires 1 <= keep <= |b.stack| && b.stack[keep - 1] < |b.nodes| && node.children == []
    ensures Extends(b.nodes, Attach(b, keep, node).nodes, b.stack[keep - 1])
    ensures Attach(b, keep, node).stack == b.stack[..keep] + [|b.nodes|]
  {
  }

  /** Attaching adds one node at the end and changes no node's name or times. */
  lemma AttachFields(b: Builder, keep: nat, node: Node)
    requires Valid(b) && 1 <= keep <= |b.stack|
    ensures var a := Attach(b, keep, node);
      && |a.nodes| == |b.nodes| + 1 && a.nodes[|b.nodes|] == node
      && forall k :: 0 <= k < |b.nodes| ==>
           a.nodes[k].name == b.nodes[k].name && a.nodes[k].selfTime == b.nodes[k].selfTime
           && a.nodes[k].cumulativeTime == b.nodes[k].cumulativeTime
  {
  }

  /** Attaching a childless node keeps the tree and the chain, and the new node lands at depth
      `keep`, one below the stack entry it was attached to. */
  lemma AttachValid(b: Builder, keep: nat, node: Node)
    requires Valid(b) && 1 <= keep <= |b.stack| && node.children == []
    ensures Valid(Attach(b, keep, node))
    ensures AtDepth(Attach(b, keep, node).nodes, |b.nodes|, keep)
  {
    var a := Attach(b, keep, node);
    var parent := b.stack[keep - 1];
    assert Extends(b.nodes, a.nodes, parent);
    ExtendLinked(b.nodes, a.nodes, parent);
    ExtendNewestFirst(b.nodes, a.nodes, parent);
    ExtendSingleParent(b.nodes, a.nodes, parent);
    ExtendHasParents(b.nodes, a.nodes, parent);
    AttachChain(b, keep, node);
    ChainDepth(a, keep);
  }

  lemma AttachChain(b: Builder, keep: nat, node: Node)
    requires Valid(b) && 1 <= keep <= |b.stack|
    ensures Chain(Attach(b, keep, node))
  {
    var a := Attach(b, keep, node);
    var parent := b.stack[keep - 1];
    forall i | 0 <= i < |a.stack| - 1
      ensures |a.nodes[a.stack[i]].children| > 0 && a.nodes[a.stack[i]].children[0] == a.stack[i + 1]
    {
      if i < keep - 1 {
        ChainStep(b, i, keep - 1);
        assert a.stack[i] == b.stack[i] && a.stack[i + 1] == b.stack[i + 1];
      }
    }
  }

  /** The pop loop of lines 200-202: drop stack entries while the stack is longer than the
      threshold the name's indentation gives. What is left is the bottom Level(indent) entries. */
  method PopAbove(stack: seq<nat>, indent: nat) returns (kept: seq<nat>)
    ensures kept == stack[..Min(Level(indent), |stack|)]
  {
    var depth := DepthThreshold(indent);
    kept := stack;
    while |kept| as real > depth
      invariant |kept| <= |stack| && kept == stack[..|kept|]
      invariant |kept| >= Min(Level(indent), |stack|)
      decreases |kept|
    {
      AboveThreshold(indent, |kept|);
      kept := kept[..|kept| - 1];
    }
    AboveThreshold(indent, |kept|);
  }

  /** The body of the loop, lines 188-204, for one parsed line: skip it, fail, or attach its
      node under the stack entry the pop loop stops at. */
  method Feed(b: Builder, e: TraceLine) returns (r: Result<Builder, TraceError>)
    requires Valid(b)
    ensures r.Err? <==> Fails(e)
    ensures e.Ignored? ==> r == Ok(b)
    ensures e.Unsplittable? ==> r == Err(UnpackError(e.fields))
    ensures e.Entry? && Level(e.indent) == 0 ==> r == Err(EmptyStack)
    ensures e.Entry? && Level(e.indent) > 0 ==>
      var keep := Min(Level(e.indent), |b.stack|);
      && r == Ok(Attach(b, keep, Node(e.name, e.selfTime, e.cumulativeTime, [])))
      && Valid(r.value)
      && AtDepth(r.value.nodes, |b.nodes|, keep)
  {
    match e
    case Ignored =>
      r := Ok(b);
    case Unsplittable(n) =>
      r := Err(UnpackError(n));
    case Entry(selfTime, cumulativeTime, name, indent) =>
      var imp := Node(name, selfTime, cumulativeTime, []);
      var stack := PopAbove(b.stack, indent);
      if |stack| == 0 {
        r := Err(EmptyStack);
      } else {
        var top := stack[|stack| - 1];
        var id := |b.nodes|;
        var nodes := b.nodes[top := b.nodes[top].(children := [id] + b.nodes[top].children)];
        nodes := nodes + [imp];
        stack := stack + [id];
        r := Ok(Builder(nodes, stack));
        AttachIs(b, stack[..|stack| - 1], imp);
        AttachValid(b, |stack| - 1, imp);
      }
  }

  /** What the parse of each line gives, in line order. */
  function ParseAll(lines: seq<string>): (es: seq<TraceLine>)
    ensures |es| == |lines|
  {
    if lines == [] then [] else [ParseLine(lines[0])] + ParseAll(lines[1..])
  }

  lemma {:induction false} ParseAllAt(lines: seq<string>, j: nat)
    requires j < |lines|
    ensures ParseAll(lines)[j] == ParseLine(lines[j])
  {
    if j > 0 {
      ParseAllAt(lines[1..], j - 1);
    }
  }

  /** A parsed line that stops the loop with an exception. */
  predicate Fails(e: TraceLine) {
    e.Unsplittable? || (e.Entry? && Level(e.indent) == 0)
  }

  /** The exception a failing line raises: the unpack's ValueError (line 186) or the IndexError
      of `import_stack[-1]` on an emptied stack (line 203). */
  function ErrorOf(e: TraceLine): TraceError
    requires Fails(e)
  {
    if e.Unsplittable? then UnpackError(e.fields) else EmptyStack
  }

  /** Line j fails and no later line does: the reversed scan meets it before any other failure,
      so its exception is the one that escapes the loop. */
  predicate LastFailing(es: seq<TraceLine>, j: nat) {
    j < |es| && Fails(es[j]) && forall k :: j < k < |es| ==> !Fails(es[k])
  }

  /** The indices of the accepted lines among es[from..], in the order the reversed scan meets
      them: last line first. Node k of the arena comes from line AcceptedFrom(es, 0)[k - 1]. */
  function AcceptedFrom(es: seq<TraceLine>, from: nat): (acc: seq<nat>)
    requires from <= |es|
    ensures forall a :: 0 <= a < |acc| ==> from <= acc[a] < |es| && es[acc[a]].Entry?
    ensures forall a, c :: 0 <= a < c < |acc| ==> acc[a] > acc[c]
    ensures forall j :: from <= j < |es| && es[j].Entry? ==> j in acc
    decreases |es| - from
  {
    if from == |es| then []
    else AcceptedFrom(es, from + 1) + (if es[from].Entry? then [from] else [])
  }

  /** A node carries the name and the two times of the line it was made from. */
  ghost predicate MadeFrom(n: Node, e: TraceLine) {
    e.Entry? && n.name == e.name && n.selfTime == e.selfTime && n.cumulativeTime == e.cumulativeTime
  }

  /** The root comes first, then one node per accepted line of es[from..], in reverse scan order. */
  ghost predicate Origins(es: seq<TraceLine>, from: nat, nodes: seq<Node>)
    requires from <= |es|
  {
    var acc := AcceptedFrom(es, from);
    && |nodes| == |acc| + 1
    && nodes[0].name == "root" && nodes[0].selfTime == 0 && nodes[0].cumulativeTime == 0
    && (forall k :: 1 <= k < |nodes| ==> MadeFrom(nodes[k], es[acc[k - 1]]))
  }

  /** The children of every node follow the forward order of their lines in the trace. */
  ghost predicate TraceOrder(es: seq<TraceLine>, nodes: seq<Node>)
    requires |nodes| == |AcceptedFrom(es, 0)| + 1 && Linked(nodes)
  {
    var acc := AcceptedFrom(es, 0);
    forall p, i, j :: 0 <= p < |nodes| && 0 <= i < j < |nodes[p].children| ==>
      acc[nodes[p].children[i] - 1] < acc[nodes[p].children[j] - 1]
  }

  /** The stack height once the reversed scan has read es[from..]: one for the root, and each
      accepted line leaves its node on top of the entries its level keeps. */
  ghost function Height(es: seq<TraceLine>, from: nat): nat
    requires from <= |es|
    decreases |es| - from
  {
    if from == |es| then 1
    else if es[from].Entry? && Level(es[from].indent) > 0 then Min(Level(es[from].indent), Height(es, from + 1)) + 1
    else Height(es, from + 1)
  }

  /** The depth the node of line j gets: the level its indentation names, cut to the height of
      the stack the scan finds when it reaches the line. */
  ghost function LineDepth(es: seq<TraceLine>, j: nat): nat
    requires j < |es|
  {
    if es[j].Entry? then Min(Level(es[j].indent), Height(es, j + 1)) else 0
  }

  /** The depth the trace gives node k of an arena whose nodes come from the lines `acc`:
      0 for the root, the depth of its line for the others. */
  ghost function NodeDepth(es: seq<TraceLine>, acc: seq<nat>, k: nat): nat {
    if 0 < k <= |acc| && acc[k - 1] < |es| then LineDepth(es, acc[k - 1]) else 0
  }

  /** Every node hangs one level below its parent, and every node made between the parent and
      the node lies at least as deep as the node: the parent is the newest earlier node one
      level up, the entry the pop loop stops at. */
  ghost predicate Nested(es: seq<TraceLine>, acc: seq<nat>, nodes: seq<Node>) {
    forall k: nat, p: nat :: ChildOf(nodes, k, p) ==>
      && NodeDepth(es, acc, p) + 1 == NodeDepth(es, acc, k)
      && forall q :: p < q < k ==> NodeDepth(es, acc, q) >= NodeDepth(es, acc, k)
  }

  /** Stack position s holds a node of depth s, and every node made after it lies deeper. */
  ghost predicate StackDepths(es: seq<TraceLine>, acc: seq<nat>, b: Builder) {
    && (forall s :: 0 <= s < |b.stack| ==> NodeDepth(es, acc, b.stack[s]) == s)
    && (forall s, q :: 0 <= s < |b.stack| && b.stack[s] < q < |b.nodes| ==> NodeDepth(es, acc, q) > s)
  }

  /** What the loop leaves behind when no line fails: the root and one node per accepted line,
      arranged as a tree whose children lists follow the trace's line order and whose nesting is
      the one the indentation gives. */
  ghost predicate Built(es: seq<TraceLine>, nodes: seq<Node>) {
    Origins(es, 0, nodes) && IsTree(nodes) && TraceOrder(es, nodes) && Nested(es, AcceptedFrom(es, 0), nodes)
  }

  /** One more accepted line leaves the depths of the earlier nodes alone. */
  lemma NodeDepthExtend(es: seq<TraceLine>, before: seq<nat>, j: nat, k: nat)
    requires j < |es|
    ensures NodeDepth(es, before + [j], k) == if k == |before| + 1 then LineDepth(es, j) else NodeDepth(es, before, k)
  {
    if 0 < k <= |before| {
      assert (before + [j])[k - 1] == before[k - 1];
    }
  }

  /** The depths `acc` gives agree with those of `before` on the first n nodes and give node n
      depth `keep`. */
  ghost predicate DepthsAgree(es: seq<TraceLine>, before: seq<nat>, acc: seq<nat>, n: nat, keep: nat) {
    && (forall k :: 0 <= k < n ==> NodeDepth(es, acc, k) == NodeDepth(es, before, k))
    && NodeDepth(es, acc, n) == keep
  }

  /** A new node of depth `keep` under a parent of depth `keep - 1`, with nothing shallower made
      in between, keeps the nesting. */
  lemma NestedExtend(es: seq<TraceLine>, before: seq<nat>, acc: seq<nat>, prev: seq<Node>, next: seq<Node>, parent: nat, keep: nat)
    requires Extends(prev, next, parent) && Linked(prev) && Nested(es, before, prev)
    requires DepthsAgree(es, before, acc, |prev|, keep)
    requires NodeDepth(es, before, parent) + 1 == keep
    requires forall q :: parent < q < |prev| ==> NodeDepth(es, before, q) >= keep
    ensures Nested(es, acc, next)
  {
    ExtendChildOf(prev, next, parent);
    forall k: nat, p: nat | ChildOf(next, k, p)
      ensures NodeDepth(es, acc, p) + 1 == NodeDepth(es, acc, k)
      ensures forall q :: p < q < k ==> NodeDepth(es, acc, q) >= NodeDepth(es, acc, k)
    {
      if k != |prev| {
        assert ChildOf(prev, k, p);
        assert k < |prev|;
      }
    }
  }

  /** Cutting the stack to `keep` entries and pushing a node of depth `keep` keeps the stack
      depths. */
  lemma StackExtend(es: seq<TraceLine>, before: seq<nat>, acc: seq<nat>, prev: Builder, next: Builder, keep: nat)
    requires 1 <= keep <= |prev.stack| && Chain(prev) && StackDepths(es, before, prev)
    requires next.stack == prev.stack[..keep] + [|prev.nodes|] && |next.nodes| == |prev.nodes| + 1
    requires DepthsAgree(es, before, acc, |prev.nodes|, keep)
    ensures StackDepths(es, acc, next)
  {
    forall s, q | 0 <= s < |next.stack| && next.stack[s] < q < |next.nodes|
      ensures NodeDepth(es, acc, q) > s
    {
      if q < |prev.nodes| {
        assert next.stack[s] == prev.stack[s];
      }
    }
    forall s | 0 <= s < |next.stack| ensures NodeDepth(es, acc, next.stack[s]) == s {
      if s < keep {
        assert next.stack[s] == prev.stack[s];
      }
    }
  }

  /** Attaching the node of an accepted line keeps the nesting and the stack depths, and the
      stack grows to the height the replay gives. */
  lemma NestStep(es: seq<TraceLine>, i: nat, prev: Builder, next: Builder, keep: nat)
    requires i < |es| && es[i].Entry? && Level(es[i].indent) > 0 && Chain(prev) && Linked(prev.nodes)
    requires |prev.nodes| == |AcceptedFrom(es, i + 1)| + 1 && |prev.stack| == Height(es, i + 1)
    requires Nested(es, AcceptedFrom(es, i + 1), prev.nodes) && StackDepths(es, AcceptedFrom(es, i + 1), prev)
    requires keep == Min(Level(es[i].indent), |prev.stack|)
    requires Extends(prev.nodes, next.nodes, prev.stack[keep - 1]) && next.stack == prev.stack[..keep] + [|prev.nodes|]
    ensures |next.stack| == Height(es, i)
    ensures Nested(es, AcceptedFrom(es, i), next.nodes) && StackDepths(es, AcceptedFrom(es, i), next)
  {
    var before, acc := AcceptedFrom(es, i + 1), AcceptedFrom(es, i);
    assert acc == before + [i];
    var n := |prev.nodes|;
    var parent := prev.stack[keep - 1];
    assert NodeDepth(es, before, parent) == keep - 1;
    forall k | 0 <= k < n ensures NodeDepth(es, acc, k) == NodeDepth(es, before, k) {
      NodeDepthExtend(es, before, i, k);
    }
    NodeDepthExtend(es, before, i, n);
    assert DepthsAgree(es, before, acc, n, keep);
    NestedExtend(es, before, acc, prev.nodes, next.nodes, parent, keep);
    StackExtend(es, before, acc, prev, next, keep);
  }

  lemma ParentDepth(es: seq<TraceLine>, acc: seq<nat>, nodes: seq<Node>, k: nat, p: nat)
    requires Nested(es, acc, nodes) && ChildOf(nodes, k, p)
    ensures NodeDepth(es, acc, p) + 1 == NodeDepth(es, acc, k)
  {
  }

  /** In a linked arena where every node has a parent one level above it, every node lies at
      the depth the trace gives it. */
  lemma {:induction false} NestedDepth(es: seq<TraceLine>, acc: seq<nat>, nodes: seq<Node>, k: nat)
    requires Linked(nodes) && HasParents(nodes) && Nested(es, acc, nodes) && k < |nodes|
    ensures AtDepth(nodes, k, NodeDepth(es, acc, k))
    decreases k
  {
    if k > 0 {
      assert HasParent(nodes, k);
      var p: nat :| ChildOf(nodes, k, p);
      assert p < k;
      NestedDepth(es, acc, nodes, p);
      ParentDepth(es, acc, nodes, k, p);
    }
  }

  /** In a built arena the trace's depth of every node is its depth in the tree. */
  lemma BuiltDepth(es: seq<TraceLine>, nodes: seq<Node>, k: nat)
    requires Built(es, nodes) && k < |nodes|
    ensures AtDepth(nodes, k, NodeDepth(es, AcceptedFrom(es, 0), k))
  {
    NestedDepth(es, AcceptedFrom(es, 0), nodes, k);
  }

  /** Two built arenas of the same trace give a node the same parent. */
  lemma SameParent(es: seq<TraceLine>, n1: seq<Node>, n2: seq<Node>, c: nat, p1: nat, p2: nat)
    requires Built(es, n1) && Built(es, n2) && ChildOf(n1, c, p1) && ChildOf(n2, c, p2)
    ensures p1 == p2
  {
    var acc := AcceptedFrom(es, 0);
    assert p1 < c && p2 < c;
  }

  /** Lists with the same elements are empty together. */
  lemma SameMembersEmpty(a: seq<nat>, b: seq<nat>)
    requires forall c :: c in a <==> c in b
    ensures a == [] <==> b == []
  {
    if a != [] {
      assert a[0] in b;
    }
    if b != [] {
      assert b[0] in a;
    }
  }

  /** Two strictly decreasing lists with the same elements are the same list. */
  lemma {:induction false} DecreasingSame(a: seq<nat>, b: seq<nat>)
    requires forall i, j :: 0 <= i < j < |a| ==> a[i] > a[j]
    requires forall i, j :: 0 <= i < j < |b| ==> b[i] > b[j]
    requires forall c :: c in a <==> c in b
    ensures a == b
    decreases |a|
  {
    SameMembersEmpty(a, b);
    if a != [] {
      assert a[0] in b && b[0] in a;
      assert a[0] == b[0];
      forall c ensures c in a[1..] <==> c in b[1..] {
        if c in a[1..] {
          assert c in a && c < a[0];
        }
        if c in b[1..] {
          assert c in b && c < b[0];
        }
      }
      DecreasingSame(a[1..], b[1..]);
      assert a == [a[0]] + a[1..] && b == [b[0]] + b[1..];
    }
  }

  /** The trace fixes the built arena: names, times, parents and the order of every children
      list, so any two arenas built from the same trace are equal. */
  lemma BuiltUnique(es: seq<TraceLine>, n1: seq<Node>, n2: seq<Node>)
    requires Built(es, n1) && Built(es, n2)
    ensures n1 == n2
  {
    var acc := AcceptedFrom(es, 0);
    forall p | 0 <= p < |n1| ensures n1[p].children == n2[p].children {
      forall c ensures c in n1[p].children <==> c in n2[p].children {
        if c in n1[p].children {
          assert ChildOf(n1, c, p) && 0 < c < |n2|;
          assert HasParent(n2, c);
          var p2 :| ChildOf(n2, c, p2);
          SameParent(es, n1, n2, c, p, p2);
        }
        if c in n2[p].children {
          assert ChildOf(n2, c, p) && 0 < c < |n1|;
          assert HasParent(n1, c);
          var p1 :| ChildOf(n1, c, p1);
          SameParent(es, n1, n2, c, p1, p);
        }
      }
      DecreasingSame(n1[p].children, n2[p].children);
    }
    forall k | 0 <= k < |n1| ensures n1[k] == n2[k] {
      if k > 0 {
        assert MadeFrom(n1[k], es[acc[k - 1]]) && MadeFrom(n2[k], es[acc[k - 1]]);
      }
    }
  }

  /** Both lines of the trace of a package importing a submodule are accepted, last first. */
  lemma SubmoduleAccepted(es: seq<TraceLine>)
    requires es == [Entry(2, 2, "pkg.sub", 3), Entry(1, 3, "pkg", 1)]
    ensures AcceptedFrom(es, 0) == [1, 0]
  {
    assert AcceptedFrom(es, 2) == [];
    assert AcceptedFrom(es, 1) == [1];
  }

  /** The depths that trace gives its two nodes. */
  lemma SubmoduleDepths(es: seq<TraceLine>)
    requires es == [Entry(2, 2, "pkg.sub", 3), Entry(1, 3, "pkg", 1)]
    ensures NodeDepth(es, [1, 0], 1) == 1 && NodeDepth(es, [1, 0], 2) == 2
  {
    assert Height(es, 2) == 1;
    assert Height(es, 1) == 2;
    assert LineDepth(es, 1) == 1;
    assert LineDepth(es, 0) == 2;
  }

  /** The trace CPython writes for a package that imports a submodule lists the submodule
      first, indented one level deeper; the built arena nests it under the package and leaves
      only the package at the top. */
  lemma SubmoduleNested(nodes: seq<Node>)
    requires Built([Entry(2, 2, "pkg.sub", 3), Entry(1, 3, "pkg", 1)], nodes)
    ensures |nodes| == 3 && nodes[1].name == "pkg" && nodes[2].name == "pkg.sub"
    ensures ChildOf(nodes, 2, 1) && ChildOf(nodes, 1, 0) && !ChildOf(nodes, 2, 0)
  {
    var es := [Entry(2, 2, "pkg.sub", 3), Entry(1, 3, "pkg", 1)];
    SubmoduleAccepted(es);
    SubmoduleDepths(es);
    assert MadeFrom(nodes[1], es[1]) && MadeFrom(nodes[2], es[0]);
    assert HasParent(nodes, 2) && HasParent(nodes, 1);
    var p2: nat :| ChildOf(nodes, 2, p2);
    var p1: nat :| ChildOf(nodes, 1, p1);
    assert p1 < 1 && p2 < 2;
    ParentDepth(es, [1, 0], nodes, 2, p2);
  }

  /** One more line scanned: a skipped line leaves the nodes alone, an accepted one adds its
      node at the end and changes no other node's name or times. */
  lemma OriginsStep(es: seq<TraceLine>, i: nat, prev: seq<Node>, next: seq<Node>)
    requires i < |es| && Origins(es, i + 1, prev)
    requires !es[i].Entry? ==> next == prev
    requires es[i].Entry? ==>
      && |next| == |prev| + 1 && MadeFrom(next[|prev|], es[i])
      && forall k :: 0 <= k < |prev| ==>
           next[k].name == prev[k].name && next[k].selfTime == prev[k].selfTime
           && next[k].cumulativeTime == prev[k].cumulativeTime
    ensures Origins(es, i, next)
  {
    var before := AcceptedFrom(es, i + 1);
    var acc := AcceptedFrom(es, i);
    assert acc == before + (if es[i].Entry? then [i] else []);
    if es[i].Entry? {
      forall k | 1 <= k < |next| ensures MadeFrom(next[k], es[acc[k - 1]]) {
        if k < |prev| {
          assert acc[k - 1] == before[k - 1];
          assert MadeFrom(prev[k], es[acc[k - 1]]);
        } else {
          assert acc[k - 1] == i;
        }
      }
    }
  }

  /** What the loop keeps while it scans es[i..]: the state is valid, holds the nodes of the
      accepted lines scanned so far, and no line scanned so far failed. */
  ghost predicate Scanned(es: seq<TraceLine>, i: nat, b: Builder)
    requires i <= |es|
  {
    && Valid(b) && Origins(es, i, b.nodes) && (forall j :: i <= j < |es| ==> !Fails(es[j]))
    && |b.stack| == Height(es, i)
    && Nested(es, AcceptedFrom(es, i), b.nodes) && StackDepths(es, AcceptedFrom(es, i), b)
  }

  /** A line the loop survives keeps what the loop keeps. */
  lemma ScanStep(es: seq<TraceLine>, i: nat, prev: Builder, e: TraceLine, r: Result<Builder, TraceError>)
    requires i < |es| && es[i] == e && Scanned(es, i + 1, prev) && r.Ok?
    requires r.Err? <==> Fails(e)
    requires e.Ignored? ==> r == Ok(prev)
    requires e.Entry? && Level(e.indent) > 0 ==>
      && r == Ok(Attach(prev, Min(Level(e.indent), |prev.stack|), Node(e.name, e.selfTime, e.cumulativeTime, [])))
      && Valid(r.value)
    ensures Scanned(es, i, r.value)
  {
    if e.Entry? {
      var keep := Min(Level(e.indent), |prev.stack|);
      AttachFields(prev, keep, Node(e.name, e.selfTime, e.cumulativeTime, []));
      AttachShape(prev, keep, Node(e.name, e.selfTime, e.cumulativeTime, []));
      NestStep(es, i, prev, r.value, keep);
    } else {
      assert AcceptedFrom(es, i) == AcceptedFrom(es, i + 1);
    }
    OriginsStep(es, i, prev.nodes, r.value.nodes);
  }

  /** Before any line the builder holds the root alone, on a stack of height one. */
  lemma ScanStart(es: seq<TraceLine>)
    ensures Scanned(es, |es|, Builder([Root], [0]))
  {
    forall k: nat, p: nat ensures !ChildOf([Root], k, p) {}
  }

  /** Once every line is read the builder holds the one arena the trace builds. */
  lemma ScanDone(es: seq<TraceLine>, b: Builder)
    requires Scanned(es, 0, b)
    ensures Built(es, b.nodes)
    ensures forall nodes :: Built(es, nodes) ==> nodes == b.nodes
  {
    NewestFirstIsTraceOrder(es, b.nodes);
    forall other | Built(es, other) ensures other == b.nodes {
      BuiltUnique(es, b.nodes, other);
    }
  }

  /** Newest-first children lists are lists in forward line order, because the scan runs
      backwards: a later node comes from an earlier line. */
  lemma NewestFirstIsTraceOrder(es: seq<TraceLine>, nodes: seq<Node>)
    requires |nodes| == |AcceptedFrom(es, 0)| + 1 && Linked(nodes) && NewestFirst(nodes)
    ensures TraceOrder(es, nodes)
  {
  }

  /** One turn of the loop: parse line i and feed it to the builder. */
  method FeedLine(lines: seq<string>, ghost es: seq<TraceLine>, i: nat, b: Builder) returns (r: Result<Builder, TraceError>)
    requires es == ParseAll(lines) && i < |lines| && Scanned(es, i + 1, b)
    ensures r.Err? <==> Fails(es[i])
    ensures r.Err? ==> LastFailing(es, i) && r.error == ErrorOf(es[i])
    ensures r.Ok? ==> Scanned(es, i, r.value)
  {
    var e := ParseLine(lines[i]);
    ParseAllAt(lines, i);
    r := Feed(b, e);
    if r.Ok? {
      ScanStep(es, i, b, e, r);
    }
  }

  /** Lines 180-204: scan the lines last to first, feeding each to the stack machine. */
  method BuildTree(lines: seq<string>) returns (r: Result<seq<Node>, TraceError>)
    ensures r.Err? <==> exists j :: 0 <= j < |lines| && Fails(ParseAll(lines)[j])
    ensures r.Err? ==> exists j: nat :: LastFailing(ParseAll(lines), j) && r.error == ErrorOf(ParseAll(lines)[j])
    ensures r.Ok? ==> Built(ParseAll(lines), r.value)
    ensures r.Ok? ==> forall nodes :: Built(ParseAll(lines), nodes) ==> nodes == r.value
  {
    ghost var es := ParseAll(lines);
    var b := Builder([Root], [0]);
    var i := |lines|;
    ScanStart(es);
    while i > 0
      invariant 0 <= i <= |lines| && Scanned(es, i, b)
    {
      var next := FeedLine(lines, es, i - 1, b);
      if next.Err? {
        return Err(next.error);
      }
      b := next.value;
      i := i - 1;
    }
    ScanDone(es, b);
    r := Ok(b.nodes);
  }

  /** A subsequence: b with some elements left out, the rest in their order. */
  ghost predicate Subsequence<T>(a: seq<T>, b: seq<T>)
    decreases |b|
  {
    if a == [] then true
    else if b == [] then false
    else (a[0] == b[0] && Subsequence(a[1..], b[1..])) || Subsequence(a, b[1..])
  }

  /** The list comprehension of lines 206-209: the ids of the children named `entryModule`, or all
      of them when interpreter-startup imports are included, in their order. */
  function KeepChildren(nodes: seq<Node>, ids: seq<nat>, entryModule: string, includeStartup: bool): (kept: seq<nat>)
    requires forall i :: 0 <= i < |ids| ==> ids[i] < |nodes|
    ensures forall c :: c in kept <==> c in ids && (includeStartup || nodes[c].name == entryModule)
    ensures Subsequence(kept, ids)
    ensures includeStartup ==> kept == ids
  {
    if ids == [] then []
    else
      var rest := KeepChildren(nodes, ids[1..], entryModule, includeStartup);
      assert ids == [ids[0]] + ids[1..];
      if nodes[ids[0]].name == entryModule || includeStartup then
        assert ([ids[0]] + rest)[1..] == rest;
        [ids[0]] + rest
      else rest
  }

  /** `root.children[:] = [...]`: the root's children list is replaced in place by the kept
      ones; no other node changes. */
  function KeepEntryModule(nodes: seq<Node>, entryModule: string, includeStartup: bool): (r: seq<Node>)
    requires |nodes| > 0 && Linked(nodes)
    ensures |r| == |nodes| && Linked(r)
    ensures forall k :: 0 < k < |nodes| ==> r[k] == nodes[k]
    ensures r[0] == nodes[0].(children := KeepChildren(nodes, nodes[0].children, entryModule, includeStartup))
  {
    var kept := KeepChildren(nodes, nodes[0].children, entryModule, includeStartup);
    var r := nodes[0 := nodes[0].(children := kept)];
    assert Linked(r) by {
      forall j | 0 <= j < |kept| ensures 0 < kept[j] < |r| {
        assert kept[j] in kept;
        var i :| 0 <= i < |nodes[0].children| && nodes[0].children[i] == kept[j];
      }
    }
    r
  }

  /** The finished tree as a value: node `id` with its subtree, its children in list order. */
  function ToTree(nodes: seq<Node>, id: nat): (t: Import)
    requires Linked(nodes) && id < |nodes|
    ensures t.name == nodes[id].name && t.selfTime == nodes[id].selfTime
    ensures t.cumulativeTime == nodes[id].cumulativeTime
    ensures |t.children| == |nodes[id].children|
    decreases |nodes| - id, 1
  {
    Import(nodes[id].name, nodes[id].selfTime, nodes[id].cumulativeTime,
           ToForest(nodes, id, nodes[id].children))
  }

  function ToForest(nodes: seq<Node>, parent: nat, ids: seq<nat>): (ts: seq<Import>)
    requires Linked(nodes) && parent < |nodes|
    requires forall i :: 0 <= i < |ids| ==> parent < ids[i] < |nodes|
    ensures |ts| == |ids|
    ensures forall i :: 0 <= i < |ids| ==> ts[i] == ToTree(nodes, ids[i])
    decreases |nodes| - parent, 0, |ids|
  {
    if ids == [] then [] else [ToTree(nodes, ids[0])] + ToForest(nodes, parent, ids[1..])
  }

  /** Lines 180-209 end to end: build, filter the root's children, and hand over the tree. */
  method ParseTrace(lines: seq<string>, entryModule: string, includeStartup: bool) returns (r: Result<Import, TraceError>)
    ensures r.Err? <==> exists j :: 0 <= j < |lines| && Fails(ParseAll(lines)[j])
    ensures r.Err? ==> exists j: nat :: LastFailing(ParseAll(lines), j) && r.error == ErrorOf(ParseAll(lines)[j])
    ensures r.Ok? ==> r.value.name == "root" && r.value.selfTime == 0 && r.value.cumulativeTime == 0
    ensures r.Ok? ==> forall c :: 0 <= c < |r.value.children| ==> includeStartup || r.value.children[c].name == entryModule
    ensures r.Ok? ==> exists nodes :: Built(ParseAll(lines), nodes) && r.value == ToTree(KeepEntryModule(nodes, entryModule, includeStartup), 0)
    ensures r.Ok? ==> forall nodes :: Built(ParseAll(lines), nodes) ==> r.value == ToTree(KeepEntryModule(nodes, entryModule, includeStartup), 0)
  {
    var built := BuildTree(lines);
    if built.Err? {
      return Err(built.error);
    }
    var nodes := built.value;
    var kept := KeepEntryModule(nodes, entryModule, includeStartup);
    var root := ToTree(kept, 0);
    forall c | 0 <= c < |root.children| ensures includeStartup || root.children[c].name == entryModule {
      var id := kept[0].children[c];
      assert id in kept[0].children;
      assert root.children[c] == ToTree(kept, id);
    }
    forall other | Built(ParseAll(lines), other) ensures root == ToTree(KeepEntryModule(other, entryModule, includeStartup), 0) {
      BuiltUnique(ParseAll(lines), nodes, other);
    }
    r := Ok(root);
  }

  /** A single marked line without bars fails only at the unpack, so the loop reports the
      ValueError for one field, not an empty stack. */
  lemma UnpackReported()
    ensures LastFailing(ParseAll(["import time:x"]), 0)
    ensures ErrorOf(ParseAll(["import time:x"])[0]) == UnpackError(1)
  {
    ParseAllAt(["import time:x"], 0);
    assert "import time:x"[|ImportTime|..] == "x";
    assert Count("x", '|') == 0;
  }
}
