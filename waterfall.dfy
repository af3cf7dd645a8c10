/** The terminal renderer: `get_max_time`, `graph` and its nested `pp`
    (importtime_waterfall.py lines 35-61). Printing is modelled as the sequence of rows `graph`
    prints, and the terminal width read at start-up (lines 21-25) is a parameter: None when
    stdout is not a terminal. */
module Waterfall {
  import opened Wrappers
  import opened PyText
  import opened ImportTree

  /** The time a node shows: `x.cumulative_time if cumulative else x.self_time`. */
  function Shown(x: Import, cumulative: bool): int {
    if cumulative then x.cumulativeTime else x.selfTime
  }

  /** Python's max() of a non-empty list. */
  function MaxOf(s: seq<int>): (m: int)
    requires |s| > 0
    ensures m in s && forall i :: 0 <= i < |s| ==> s[i] <= m
  {
    if |s| == 1 then s[0] else Max(s[0], MaxOf(s[1..]))
  }

  /** get_max_time, lines 35-39: the maximum of the node's own time and its children's maxima. */
  function MaxTime(x: Import, cumulative: bool): (m: int)
    ensures Shown(x, cumulative) <= m
    ensures forall i :: 0 <= i < |x.children| ==> MaxTime(x.children[i], cumulative) <= m
    ensures m == Shown(x, cumulative) || exists i :: 0 <= i < |x.children| && m == MaxTime(x.children[i], cumulative)
    decreases x
  {
    var kids := seq(|x.children|, i requires 0 <= i < |x.children| => MaxTime(x.children[i], cumulative));
    assert forall i :: 0 <= i < |x.children| ==> kids[i] == MaxTime(x.children[i], cumulative);
    MaxOfCons(Shown(x, cumulative), kids);
    MaxOf([Shown(x, cumulative)] + kids)
  }

  /** The maximum of a head and a tail bounds both and is one of them. */
  lemma MaxOfCons(h: int, t: seq<int>)
    ensures var m := MaxOf([h] + t);
      && h <= m && (forall i :: 0 <= i < |t| ==> t[i] <= m)
      && (m == h || exists i :: 0 <= i < |t| && m == t[i])
  {
    var s := [h] + t;
    forall i | 0 <= i < |t| ensures t[i] <= MaxOf(s) {
      assert s[i + 1] == t[i];
    }
    var k :| 0 <= k < |s| && s[k] == MaxOf(s);
    if k > 0 {
      assert t[k - 1] == s[k];
    }
  }

  /** The recursion computes the largest time any node of the tree shows: some node shows it
      and none shows more. */
  lemma {:induction false} MaxTimeIsMaximum(x: Import, cumulative: bool)
    ensures forall y :: y in Nodes(x) ==> Shown(y, cumulative) <= MaxTime(x, cumulative)
    ensures exists y :: y in Nodes(x) && Shown(y, cumulative) == MaxTime(x, cumulative)
    decreases x
  {
    var m := MaxTime(x, cumulative);
    forall y | y in Nodes(x) ensures Shown(y, cumulative) <= m {
      if y != x {
        assert y in ForestNodes(x.children);
        ForestNodesMember(x.children, y);
        var j :| 0 <= j < |x.children| && y in Nodes(x.children[j]);
        MaxTimeIsMaximum(x.children[j], cumulative);
      }
    }
    if m == Shown(x, cumulative) {
      assert x in Nodes(x);
    } else {
      var j :| 0 <= j < |x.children| && m == MaxTime(x.children[j], cumulative);
      MaxTimeIsMaximum(x.children[j], cumulative);
      var y :| y in Nodes(x.children[j]) && Shown(y, cumulative) == m;
      ForestNodesMember(x.children, y);
      assert y in Nodes(x);
    }
  }

  /** One printed line: plain text, or a line whose first part has a red background. */
  datatype Row = Plain(text: string) | Bar(highlighted: string, rest: string)

  /** `f'{"  " * depth}{x.name} ({time})'`. */
  function LineText(x: Import, depth: nat, cumulative: bool): string {
    Spaces(2 * depth) + x.name + " (" + DecimalString(Shown(x, cumulative)) + ")"
  }

  /** How many leading characters get the red background: `int(time / max_self_time * width)`,
      the exact quotient truncated toward zero. */
  function RedChars(time: int, maxTime: int, width: nat): (r: int)
    requires maxTime != 0
    ensures Abs(r) * Abs(maxTime) <= Abs(time * width) < (Abs(r) + 1) * Abs(maxTime)
    ensures r != 0 ==> (r < 0 <==> (time * width < 0) != (maxTime < 0))
  {
    TruncDiv(time * width, maxTime)
  }

  /** The body of pp for one node, lines 47-55. */
  function FormatRow(x: Import, depth: nat, cumulative: bool, width: Option<nat>, maxTime: int): Row
    requires width.Some? ==> maxTime != 0
  {
    var text := LineText(x, depth, cumulative);
    match width
    case None => Plain(text)
    case Some(w) => Highlight(text, Shown(x, cumulative), maxTime, w)
  }

  /** Lines 50-53: pad the text to the width, then split it after the red characters. */
  function Highlight(text: string, time: int, maxTime: int, w: nat): (r: Row)
    requires maxTime != 0
    ensures r.Bar? && r.highlighted + r.rest == LJust(text, w)
  {
    var padded := LJust(text, w);
    var k := SliceBound(RedChars(time, maxTime, w), |padded|);
    assert padded[..k] + padded[k..] == padded;
    Bar(padded[..k], padded[k..])
  }

  /** pp, lines 46-57: the node's row, then its children's rows one level deeper. */
  function Pp(x: Import, depth: nat, cumulative: bool, width: Option<nat>, maxTime: int): (rows: seq<Row>)
    requires width.Some? ==> maxTime != 0
    ensures |rows| == Size(x) && rows[0] == FormatRow(x, depth, cumulative, width, maxTime)
    decreases x, 1
  {
    [FormatRow(x, depth, cumulative, width, maxTime)] + PpForest(x.children, depth + 1, cumulative, width, maxTime)
  }

  function PpForest(xs: seq<Import>, depth: nat, cumulative: bool, width: Option<nat>, maxTime: int): (rows: seq<Row>)
    requires width.Some? ==> maxTime != 0
    ensures |rows| == ForestSize(xs)
    decreases xs, 0
  {
    if xs == [] then [] else Pp(xs[0], depth, cumulative, width, maxTime) + PpForest(xs[1..], depth, cumulative, width, maxTime)
  }

  /** The row for every placed node of a walk, in order. */
  function RowsOf(w: seq<Placed>, cumulative: bool, width: Option<nat>, maxTime: int): (rows: seq<Row>)
    requires width.Some? ==> maxTime != 0
    ensures |rows| == |w|
    ensures forall i :: 0 <= i < |w| ==> rows[i] == FormatRow(w[i].node, w[i].depth, cumulative, width, maxTime)
  {
    if w == [] then [] else [FormatRow(w[0].node, w[0].depth, cumulative, width, maxTime)] + RowsOf(w[1..], cumulative, width, maxTime)
  }

  lemma {:induction false} RowsOfConcat(a: seq<Placed>, b: seq<Placed>, cumulative: bool, width: Option<nat>, maxTime: int)
    requires width.Some? ==> maxTime != 0
    ensures RowsOf(a + b, cumulative, width, maxTime) == RowsOf(a, cumulative, width, maxTime) + RowsOf(b, cumulative, width, maxTime)
  {
    var whole, left, right := RowsOf(a + b, cumulative, width, maxTime), RowsOf(a, cumulative, width, maxTime), RowsOf(b, cumulative, width, maxTime);
    forall i | 0 <= i < |whole| ensures whole[i] == (left + right)[i] {
      if i < |a| {
        assert (a + b)[i] == a[i];
      } else {
        assert (a + b)[i] == b[i - |a|];
      }
    }
    assert whole == left + right;
  }

  /** pp prints one row per node, in pre-order, each indented by the node's depth. */
  lemma {:induction false} PpIsPreOrder(xs: seq<Import>, depth: nat, cumulative: bool, width: Option<nat>, maxTime: int)
    requires width.Some? ==> maxTime != 0
    ensures PpForest(xs, depth, cumulative, width, maxTime) == RowsOf(ForestWalk(xs, depth), cumulative, width, maxTime)
    decreases xs
  {
    if xs != [] {
      var x := xs[0];
      PpIsPreOrder(x.children, depth + 1, cumulative, width, maxTime);
      PpIsPreOrder(xs[1..], depth, cumulative, width, maxTime);
      var inner := ForestWalk(x.children, depth + 1);
      assert Walk(x, depth) == [Placed(x, depth)] + inner;
      RowsOfConcat([Placed(x, depth)], inner, cumulative, width, maxTime);
      RowsOfConcat(Walk(x, depth), ForestWalk(xs[1..], depth), cumulative, width, maxTime);
    }
  }

  datatype GraphError = ZeroDivision   // `time / max_self_time` with a zero maximum (line 51)

  /** graph, lines 42-61: the rows printed for the root's children and their descendants. With a
      terminal width and a zero maximum time, the first row fails before anything is printed. */
  function Graph(root: Import, cumulative: bool, width: Option<nat>): (r: Result<seq<Row>, GraphError>)
    ensures r.Err? <==> width.Some? && root.children != [] && MaxTime(root, cumulative) == 0
    ensures r.Ok? ==> |r.value| == ForestSize(root.children)
  {
    var maxTime := MaxTime(root, cumulative);
    if root.children == [] then Ok([])
    else if width.Some? && maxTime == 0 then Err(ZeroDivision)
    else
      PpIsPreOrder(root.children, 0, cumulative, width, maxTime);
      Ok(PpForest(root.children, 0, cumulative, width, maxTime))
  }

  /** Row i of the output belongs to node i of the pre-order walk of the root's children: its
      text is that node's name and time, indented two spaces per level below the top. */
  lemma GraphRows(root: Import, cumulative: bool, width: Option<nat>, i: nat)
    requires Graph(root, cumulative, width).Ok? && i < |Graph(root, cumulative, width).value|
    ensures var p := ForestWalk(root.children, 0)[i];
      var text := Spaces(2 * p.depth) + p.node.name + " (" + DecimalString(Shown(p.node, cumulative)) + ")";
      match Graph(root, cumulative, width).value[i]
      case Plain(t) => width.None? && t == text
      case Bar(h, rest) => width.Some? && h + rest == LJust(text, width.value)
  {
    var maxTime := MaxTime(root, cumulative);
    PpIsPreOrder(root.children, 0, cumulative, width, maxTime);
    var row := Graph(root, cumulative, width).value[i];
    var p := ForestWalk(root.children, 0)[i];
    assert row == FormatRow(p.node, p.depth, cumulative, width, maxTime);
    if width.Some? {
      BarLength(LineText(p.node, p.depth, cumulative), Shown(p.node, cumulative), maxTime, width.value);
    }
  }

  /** The two parts of a highlighted row make up the padded line, which is at least as wide as
      the terminal. For a non-negative time and a positive maximum the highlight is
      time * width / maximum characters, cut at the end of the line. */
  lemma BarLength(text: string, time: int, maxTime: int, w: nat)
    requires maxTime != 0
    ensures var row := Highlight(text, time, maxTime, w);
      && row.highlighted + row.rest == LJust(text, w)
      && |row.highlighted + row.rest| >= w
      && (0 <= time && 0 < maxTime ==> |row.highlighted| == Min(time * w / maxTime, |LJust(text, w)|))
  {
    var padded := LJust(text, w);
    var k := SliceBound(RedChars(time, maxTime, w), |padded|);
    assert padded[..k] + padded[k..] == padded;
    if 0 <= time && 0 < maxTime {
      RedCharsExact(time, maxTime, w);
    }
  }

  /** For a non-negative time and a positive maximum, truncation is plain floor division. */
  lemma RedCharsExact(time: int, maxTime: int, w: nat)
    requires 0 <= time && 0 < maxTime
    ensures RedChars(time, maxTime, w) == time * w / maxTime >= 0
  {
    var a := time * w;
    assert a >= 0 by {
      NonNegProduct(time, w);
    }
  }

  lemma NonNegProduct(a: nat, b: nat)
    ensures a * b >= 0
  {
  }

  /** A time no larger than the maximum never highlights more than the terminal width, and the
      maximum itself highlights exactly the width. */
  lemma BarWithinWidth(text: string, time: int, maxTime: int, w: nat)
    requires 0 <= time <= maxTime && 0 < maxTime
    ensures |Highlight(text, time, maxTime, w).highlighted| <= w
    ensures time == maxTime ==> |Highlight(text, time, maxTime, w).highlighted| == w
  {
    BarLength(text, time, maxTime, w);
    var q := time * w / maxTime;
    assert q <= w by {
      MulDivBound(time, w, maxTime);
    }
    if time == maxTime {
      assert q == w by {
        MulDivCancel(maxTime, w);
      }
    }
  }

  lemma MulDivCancel(m: int, w: nat)
    requires 0 < m
    ensures m * w / m == w
  {
    var q, r := m * w / m, m * w % m;
    assert m * w == q * m + r;
    assert (w - q) * m == r by {
      assert (w - q) * m == w * m - q * m;
    }
    MulAwayFromZero(w - q, m);
  }

  lemma MulAwayFromZero(k: int, m: int)
    requires 0 < m
    ensures k >= 1 ==> k * m >= m
    ensures k <= -1 ==> k * m <= -m
  {
    if k >= 1 {
      NonNegProduct(k - 1, m);
      assert k * m == (k - 1) * m + m;
    } else if k <= -1 {
      NonNegProduct(-k - 1, m);
      assert k * m == -((-k - 1) * m) - m;
    }
  }

  lemma MulDivBound(t: nat, w: nat, m: nat)
    requires t <= m && 0 < m
    ensures t * w / m <= w
  {
    assert t * w <= m * w;
  }

  /** With a terminal width and non-negative times (as in every trace CPython writes),
      every highlight fits in the width, and the slowest import's row is highlighted across it. */
  lemma GraphBars(root: Import, cumulative: bool, w: nat, i: nat)
    requires forall y :: y in Nodes(root) ==> Shown(y, cumulative) >= 0
    requires Graph(root, cumulative, Some(w)).Ok? && i < |Graph(root, cumulative, Some(w)).value|
    ensures var row := Graph(root, cumulative, Some(w)).value[i];
      && row.Bar? && |row.highlighted| <= w
      && (Shown(ForestWalk(root.children, 0)[i].node, cumulative) == MaxTime(root, cumulative) ==> |row.highlighted| == w)
  {
    var maxTime := MaxTime(root, cumulative);
    PpIsPreOrder(root.children, 0, cumulative, Some(w), maxTime);
    ForestWalkNodes(root.children, 0);
    MaxTimeIsMaximum(root, cumulative);
    var p := ForestWalk(root.children, 0)[i];
    assert p.node == ForestNodes(root.children)[i];
    assert p.node in Nodes(root);
    assert root in Nodes(root);
    BarWithinWidth(LineText(p.node, p.depth, cumulative), Shown(p.node, cumulative), maxTime, w);
  }

  const ExampleSub := Import("pkg.sub", 2, 2, [])
  const ExamplePkg := Import("pkg", 1, 3, [ExampleSub])

  /** The largest cumulative time in the package example is the package's own. */
  lemma ExampleMaxTime()
    ensures MaxTime(Import("root", 0, 0, [ExamplePkg]), true) == 3
  {
    assert MaxTime(ExampleSub, true) == 2;
    assert MaxTime(ExamplePkg, true) == 3;
  }

  /** The rows pp prints for the package example, one per module. */
  lemma ExampleRows()
    ensures PpForest([ExamplePkg], 0, true, None, 3) == [Plain("pkg (3)"), Plain("  pkg.sub (2)")]
  {
    assert DecimalString(3) == "3" && DecimalString(2) == "2";
    assert Spaces(2) == "  ";
    assert LineText(ExamplePkg, 0, true) == "pkg (3)";
    assert LineText(ExampleSub, 1, true) == "  pkg.sub (2)";
    assert Pp(ExampleSub, 1, true, None, 3) == [Plain("  pkg.sub (2)")];
    assert [ExampleSub][1..] == [] && [ExamplePkg][1..] == [];
    assert PpForest([ExampleSub], 1, true, None, 3) == [Plain("  pkg.sub (2)")];
    assert Pp(ExamplePkg, 0, true, None, 3) == [Plain("pkg (3)"), Plain("  pkg.sub (2)")];
  }

  /** A package that imports a submodule, shown with cumulative times and no terminal: one
      line per module, the submodule indented, each with the single time selected. */
  lemma GraphExample()
    ensures Graph(Import("root", 0, 0, [Import("pkg", 1, 3, [Import("pkg.sub", 2, 2, [])])]), true, None)
         == Ok([Plain("pkg (3)"), Plain("  pkg.sub (2)")])
  {
    ExampleMaxTime();
    ExampleRows();
  }
}
