/** The pre-order walk that lists a recursive header's whole subtree as menu
    entries, each behind a tree-connector prefix (`getChoicesAndActionsRecursive`
    in both menus). The two menus differ only in the padding divisor applied
    after a header. */
module ChoiceWalk {
  import opened Basics
  import opened Trees

  /** Which menu walks: the current one pads a header by a fifth of its label,
      the older one by half. */
  datatype Layout = Current | Legacy

  const Tee: string := "├─"
  const Elbow: string := "└─"
  const Bar: string := "│ "
  const Blank: string := "  "

  /** Divisor of the label length that gives the padding after a node. */
  function Divisor(layout: Layout, t: TreeNode): (d: nat)
    ensures d == 5 <==> layout == Current && t.kind == Header
    ensures d == 2 <==> !(layout == Current && t.kind == Header)
  {
    if layout == Current && t.kind == Header then 5 else 2
  }

  function Connector(isLast: bool): string {
    if isLast then Elbow else Tee
  }

  /** `s.replace(/ab/g, rep)` for a two-character pattern: non-overlapping
      occurrences, scanned left to right. */
  function ReplacePair(s: string, a: char, b: char, rep: string): string {
    if |s| < 2 then s
    else if s[0] == a && s[1] == b then rep + ReplacePair(s[2..], a, b, rep)
    else [s[0]] + ReplacePair(s[1..], a, b, rep)
  }

  /** The two replacements applied before descending to the children. */
  function Continue(d: string): string {
    ReplacePair(ReplacePair(d, Tee[0], Tee[1], Bar), Elbow[0], Elbow[1], Blank)
  }

  /** One entry of the walk: the prefix printed before the node's label, and
      the node with its position. */
  datatype Row = Row(prefix: string, path: Path, node: TreeNode)

  /** The prefix of a node's own entry. */
  function Entered(t: TreeNode, isLast: bool, depth: string): string {
    if t.kind == Header then depth else depth + Connector(isLast)
  }

  /** The prefix handed to the node's children. */
  function Descended(t: TreeNode, isLast: bool, depth: string, layout: Layout): string {
    var d := Entered(t, isLast, depth);
    (if |d| > 0 then Continue(d) else d) + Spaces(JsLength(t.labelText) / Divisor(layout, t))
  }

  /** The entries of the walk of subtree `t` at position `path`. */
  function Walk(t: TreeNode, path: Path, isLast: bool, depth: string, layout: Layout): seq<Row>
    decreases t, 1
  {
    [Row(Entered(t, isLast, depth), path, t)] + WalkFrom(t, path, Descended(t, isLast, depth, layout), layout, 0)
  }

  function WalkFrom(t: TreeNode, path: Path, depth: string, layout: Layout, i: nat): seq<Row>
    decreases t, 0, |t.children| - i
  {
    if i >= |t.children| then []
    else Walk(t.children[i], path + [i], i == |t.children| - 1, depth, layout) + WalkFrom(t, path, depth, layout, i + 1)
  }

  /** The walk as the source performs it: the `depth` string is extended,
      rewritten and padded in place, then each child is walked in turn and
      its entries appended. */
  method WalkRows(t: TreeNode, path: Path, isLast: bool, depth0: string, layout: Layout) returns (rows: seq<Row>)
    ensures rows == Walk(t, path, isLast, depth0, layout)
    decreases t
  {
    var depth := depth0;
    if t.kind != Header {
      if !isLast {
        depth := depth + Tee;
      } else {
        depth := depth + Elbow;
      }
    }
    rows := [Row(depth, path, t)];
    if |depth| > 0 {
      depth := ReplacePair(depth, Tee[0], Tee[1], Bar);
      depth := ReplacePair(depth, Elbow[0], Elbow[1], Blank);
    }
    depth := depth + Spaces(JsLength(t.labelText) / Divisor(layout, t));
    for i := 0 to |t.children|
      invariant rows + WalkFrom(t, path, depth, layout, i) == Walk(t, path, isLast, depth0, layout)
    {
      var sub := WalkRows(t.children[i], path + [i], i == |t.children| - 1, depth, layout);
      rows := rows + sub;
    }
  }

  /** The positions and nodes of a list of entries. */
  function Visits(rows: seq<Row>): (vs: seq<Visit>)
    ensures |vs| == |rows|
    ensures forall k :: 0 <= k < |rows| ==> vs[k] == Visit(rows[k].path, rows[k].node)
  {
    if rows == [] then [] else [Visit(rows[0].path, rows[0].node)] + Visits(rows[1..])
  }

  lemma {:induction false} VisitsAppend(a: seq<Row>, b: seq<Row>)
    ensures Visits(a + b) == Visits(a) + Visits(b)
  {
  }

  /** The walk lists exactly the pre-order enumeration of the subtree, the
      walked node first. */
  lemma {:induction false} WalkIsPreOrder(t: TreeNode, path: Path, isLast: bool, depth: string, layout: Layout)
    ensures Visits(Walk(t, path, isLast, depth, layout)) == PreOrder(t, path)
    decreases t, 1
  {
    var d := Descended(t, isLast, depth, layout);
    WalkFromIsPreOrder(t, path, d, layout, 0);
    VisitsAppend([Row(Entered(t, isLast, depth), path, t)], WalkFrom(t, path, d, layout, 0));
  }

  lemma {:induction false} WalkFromIsPreOrder(t: TreeNode, path: Path, depth: string, layout: Layout, i: nat)
    ensures Visits(WalkFrom(t, path, depth, layout, i)) == PreOrderFrom(t, path, i)
    decreases t, 0, |t.children| - i
  {
    if i < |t.children| {
      var last := i == |t.children| - 1;
      WalkIsPreOrder(t.children[i], path + [i], last, depth, layout);
      WalkFromIsPreOrder(t, path, depth, layout, i + 1);
      VisitsAppend(Walk(t.children[i], path + [i], last, depth, layout), WalkFrom(t, path, depth, layout, i + 1));
    }
  }

  /** One entry per node of the subtree. */
  lemma WalkSize(t: TreeNode, path: Path, isLast: bool, depth: string, layout: Layout)
    ensures |Walk(t, path, isLast, depth, layout)| == Size(t)
  {
    WalkIsPreOrder(t, path, isLast, depth, layout);
    PreOrderSize(t, path);
  }

  /** A prefix made only of the continuation glyphs: spaces and vertical bars. */
  predicate Clean(s: string) {
    forall k :: 0 <= k < |s| ==> s[k] == ' ' || s[k] == '│'
  }

  lemma {:induction false} ReplaceAbsent(s: string, a: char, b: char, rep: string)
    requires a !in s
    ensures ReplacePair(s, a, b, rep) == s
  {
    if |s| >= 2 {
      ReplaceAbsent(s[1..], a, b, rep);
      assert [s[0]] + s[1..] == s;
    }
  }

  lemma {:induction false} ReplaceAtEnd(p: string, a: char, b: char, rep: string)
    requires a !in p
    ensures ReplacePair(p + [a, b], a, b, rep) == p + rep
  {
    if p == [] {
      var ab: string := [a, b];
      assert ab[2..] == [] && p + ab == ab;
    } else {
      assert (p + [a, b])[1..] == p[1..] + [a, b];
      ReplaceAtEnd(p[1..], a, b, rep);
      assert [p[0]] + (p[1..] + rep) == p + rep;
    }
  }

  /** Before descending, a trailing `├─` becomes `│ ` and a trailing `└─`
      becomes two spaces; a clean prefix is left as it is. */
  lemma ContinueRule(p: string, isLast: bool)
    requires Clean(p)
    ensures Continue(p + Connector(isLast)) == p + (if isLast then Blank else Bar)
    ensures Continue(p) == p
  {
    assert Tee[0] !in p && Elbow[0] !in p;
    ReplaceAbsent(p, Tee[0], Tee[1], Bar);
    ReplaceAbsent(p, Elbow[0], Elbow[1], Blank);
    if isLast {
      assert Tee[0] !in p + Elbow;
      ReplaceAbsent(p + Elbow, Tee[0], Tee[1], Bar);
      ReplaceAtEnd(p, Elbow[0], Elbow[1], Blank);
      assert p + Elbow == p + [Elbow[0], Elbow[1]];
    } else {
      ReplaceAtEnd(p, Tee[0], Tee[1], Bar);
      assert p + Tee == p + [Tee[0], Tee[1]];
      assert Elbow[0] !in p + Bar;
      ReplaceAbsent(p + Bar, Elbow[0], Elbow[1], Blank);
    }
  }

  /** The prefix the children of a node receive, stated without the
      replacements: the continuation glyph of the node's own connector (none
      for a header) followed by the label-proportional padding. */
  function ChildDepth(t: TreeNode, isLast: bool, depth: string, layout: Layout): string {
    (if t.kind == Header then depth else depth + (if isLast then Blank else Bar))
      + Spaces(JsLength(t.labelText) / Divisor(layout, t))
  }

  lemma DescendedIsChildDepth(t: TreeNode, isLast: bool, depth: string, layout: Layout)
    requires Clean(depth)
    ensures Descended(t, isLast, depth, layout) == ChildDepth(t, isLast, depth, layout)
    ensures Clean(ChildDepth(t, isLast, depth, layout))
  {
    ContinueRule(depth, isLast);
  }

  lemma {:induction false} WalkFromSize(t: TreeNode, path: Path, depth: string, layout: Layout, i: nat)
    ensures |WalkFrom(t, path, depth, layout, i)| == ChildrenSize(t, i)
    decreases |t.children| - i
  {
    if i < |t.children| {
      WalkSize(t.children[i], path + [i], i == |t.children| - 1, depth, layout);
      WalkFromSize(t, path, depth, layout, i + 1);
    }
  }

  lemma {:induction false} WalkFromHead(t: TreeNode, path: Path, depth: string, layout: Layout, i: nat, j: nat)
    requires i <= j < |t.children|
    ensures var k := ChildrenSize(t, i) - ChildrenSize(t, j);
      0 <= k < |WalkFrom(t, path, depth, layout, i)| &&
      WalkFrom(t, path, depth, layout, i)[k] ==
        Row(Entered(t.children[j], j == |t.children| - 1, depth), path + [j], t.children[j])
    decreases j - i
  {
    WalkFromSize(t, path, depth, layout, j);
    if i < j {
      WalkFromHead(t, path, depth, layout, i + 1, j);
      WalkSize(t.children[i], path + [i], i == |t.children| - 1, depth, layout);
    }
  }

  /** Where a child's own entry sits in its parent's walk. */
  lemma ChildRow(t: TreeNode, path: Path, isLast: bool, depth: string, layout: Layout, j: nat)
    requires j < |t.children|
    ensures var rows := Walk(t, path, isLast, depth, layout);
      var k := 1 + ChildrenSize(t, 0) - ChildrenSize(t, j);
      0 <= k < |rows| &&
      rows[k] == Row(Entered(t.children[j], j == |t.children| - 1, Descended(t, isLast, depth, layout)),
                     path + [j], t.children[j])
  {
    var d := Descended(t, isLast, depth, layout);
    var tail := WalkFrom(t, path, d, layout, 0);
    WalkFromHead(t, path, d, layout, 0, j);
    assert Walk(t, path, isLast, depth, layout) == [Row(Entered(t, isLast, depth), path, t)] + tail;
  }

  /** Where a child's own entry sits in its parent's walk, and its prefix: the
      parent's continuation and padding, then `└─` for the last sibling and
      `├─` for the others (nothing for a header). */
  lemma ChildEntry(t: TreeNode, path: Path, isLast: bool, depth: string, layout: Layout, j: nat)
    requires Clean(depth)
    requires j < |t.children|
    ensures var rows := Walk(t, path, isLast, depth, layout);
      var k := 1 + ChildrenSize(t, 0) - ChildrenSize(t, j);
      var c := t.children[j];
      0 <= k < |rows| &&
      rows[k].path == path + [j] && rows[k].node == c &&
      rows[k].prefix == ChildDepth(t, isLast, depth, layout) +
                        (if c.kind == Header then "" else Connector(j == |t.children| - 1))
  {
    ChildRow(t, path, isLast, depth, layout, j);
    DescendedIsChildDepth(t, isLast, depth, layout);
    var d := Descended(t, isLast, depth, layout);
    if t.children[j].kind == Header {
      assert d + "" == d;
    }
  }

  /** The walked node's own entry comes first, with the connector of its
      position among its siblings (none for a header). */
  lemma FirstEntry(t: TreeNode, path: Path, isLast: bool, depth: string, layout: Layout)
    ensures var rows := Walk(t, path, isLast, depth, layout);
      |rows| >= 1 && rows[0].path == path && rows[0].node == t &&
      rows[0].prefix == depth + (if t.kind == Header then "" else Connector(isLast))
  {
    if t.kind == Header {
      assert depth + "" == depth;
    }
  }
}
