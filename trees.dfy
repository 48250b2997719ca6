/** The menu tree shared by the main menu, the older menu and the two
    auxiliary views. A node is identified by its position: the path of child
    indices that leads to it from the root. */
module Trees {
  import opened Basics

  /** The `type` field of a node. */
  datatype Kind = Header | Challenge | Quiz | CapstoneProject | OtherKind(text: string)

  /** The kind named by a catalog record's `type` string. */
  function KindOf(t: string): (k: Kind)
    ensures k.OtherKind? <==> t !in {"header", "challenge", "quiz", "capstone-project"}
    ensures k.OtherKind? ==> k.text == t
    ensures t == "header" ==> k == Header
    ensures t == "challenge" ==> k == Challenge
    ensures t == "quiz" ==> k == Quiz
    ensures t == "capstone-project" ==> k == CapstoneProject
  {
    if t == "header" then Header
    else if t == "challenge" then Challenge
    else if t == "quiz" then Quiz
    else if t == "capstone-project" then CapstoneProject
    else OtherKind(t)
  }

  /** A menu node. `actions` holds the labels of the node's actions in
      insertion order (the closures themselves are not modelled). Fields the
      source leaves undefined are false, empty or zero. */
  datatype TreeNode = TreeNode(
    labelText: string,
    name: string,
    kind: Kind,
    level: int,
    completed: bool,
    installed: bool,
    unlocked: bool,
    actions: seq<string>,
    recursive: bool,
    message: string,
    children: seq<TreeNode>)

  /** A structural node (a header) with the given children. */
  function HeaderNode(labelText: string, name: string, recursive: bool, message: string, children: seq<TreeNode>): TreeNode {
    TreeNode(labelText, name, Header, 0, false, false, false, [], recursive, message, children)
  }

  /** The node without its children: the fields a node carries for itself. */
  function Strip(t: TreeNode): TreeNode {
    t.(children := [])
  }

  /** Every node of the subtree, the node itself included, satisfies `P`
      (on its own fields). */
  predicate Every(t: TreeNode, P: TreeNode -> bool) {
    P(Strip(t)) && forall i :: 0 <= i < |t.children| ==> Every(t.children[i], P)
  }

  type Path = seq<nat>

  predicate ValidPath(t: TreeNode, p: Path)
    decreases p
  {
    p == [] || (p[0] < |t.children| && ValidPath(t.children[p[0]], p[1..]))
  }

  function NodeAt(t: TreeNode, p: Path): TreeNode
    requires ValidPath(t, p)
    decreases p
  {
    if p == [] then t else NodeAt(t.children[p[0]], p[1..])
  }

  lemma {:induction false} ValidPathExtend(t: TreeNode, p: Path, i: nat)
    requires ValidPath(t, p) && i < |NodeAt(t, p).children|
    ensures ValidPath(t, p + [i]) && NodeAt(t, p + [i]) == NodeAt(t, p).children[i]
    decreases p
  {
    if p != [] {
      assert (p + [i])[1..] == p[1..] + [i];
      ValidPathExtend(t.children[p[0]], p[1..], i);
    }
  }

  lemma {:induction false} ValidPathPrefix(t: TreeNode, p: Path, n: nat)
    requires ValidPath(t, p) && n <= |p|
    ensures ValidPath(t, p[..n])
    decreases p
  {
    if n > 0 {
      assert p[..n][1..] == p[1..][..n - 1];
      ValidPathPrefix(t.children[p[0]], p[1..], n - 1);
    }
  }

  lemma {:induction false} ValidPathStep(t: TreeNode, p: Path)
    requires ValidPath(t, p) && p != []
    ensures ValidPath(t, p[..|p| - 1])
    ensures p[|p| - 1] < |NodeAt(t, p[..|p| - 1]).children|
    ensures NodeAt(t, p) == NodeAt(t, p[..|p| - 1]).children[p[|p| - 1]]
    decreases p
  {
    if |p| > 1 {
      assert p[..|p| - 1][1..] == p[1..][..|p[1..]| - 1];
      ValidPathStep(t.children[p[0]], p[1..]);
    }
  }

  /** A position relative to the node at `p` is a position of the whole tree. */
  lemma {:induction false} ValidPathAppend(t: TreeNode, p: Path, q: Path)
    requires ValidPath(t, p) && ValidPath(NodeAt(t, p), q)
    ensures ValidPath(t, p + q) && NodeAt(t, p + q) == NodeAt(NodeAt(t, p), q)
    decreases p
  {
    if p == [] {
      assert p + q == q;
    } else {
      assert (p + q)[1..] == p[1..] + q;
      ValidPathAppend(t.children[p[0]], p[1..], q);
    }
  }

  /** Number of nodes of a subtree, the node itself included. */
  function Size(t: TreeNode): nat
    decreases t, 1
  {
    1 + ChildrenSize(t, 0)
  }

  /** Number of nodes in the subtrees of children `i..` of `t`. */
  function ChildrenSize(t: TreeNode, i: nat): nat
    decreases t, 0, |t.children| - i
  {
    if i >= |t.children| then 0 else Size(t.children[i]) + ChildrenSize(t, i + 1)
  }

  /** A node of a walk, with its position. */
  datatype Visit = Visit(path: Path, node: TreeNode)

  /** Depth-first pre-order enumeration of the subtree `t` that sits at
      position `base`. */
  function PreOrder(t: TreeNode, base: Path): seq<Visit>
    decreases t, 1
  {
    [Visit(base, t)] + PreOrderFrom(t, base, 0)
  }

  function PreOrderFrom(t: TreeNode, base: Path, i: nat): seq<Visit>
    decreases t, 0, |t.children| - i
  {
    if i >= |t.children| then [] else PreOrder(t.children[i], base + [i]) + PreOrderFrom(t, base, i + 1)
  }

  /** The enumeration holds one visit per node of the subtree. */
  lemma {:induction false} PreOrderSize(t: TreeNode, base: Path)
    ensures |PreOrder(t, base)| == Size(t)
    decreases t, 1
  {
    PreOrderFromSize(t, base, 0);
  }

  lemma {:induction false} PreOrderFromSize(t: TreeNode, base: Path, i: nat)
    ensures |PreOrderFrom(t, base, i)| == ChildrenSize(t, i)
    decreases t, 0, |t.children| - i
  {
    if i < |t.children| {
      PreOrderSize(t.children[i], base + [i]);
      PreOrderFromSize(t, base, i + 1);
    }
  }

  /** Every visit names a position below `base` and the node found there. */
  predicate VisitsBelow(t: TreeNode, base: Path, vs: seq<Visit>) {
    forall k :: 0 <= k < |vs| ==>
      |base| <= |vs[k].path| && vs[k].path[..|base|] == base &&
      ValidPath(t, vs[k].path[|base|..]) && NodeAt(t, vs[k].path[|base|..]) == vs[k].node
  }

  lemma {:induction false} PreOrderSound(t: TreeNode, base: Path)
    ensures VisitsBelow(t, base, PreOrder(t, base))
    decreases t, 1
  {
    PreOrderFromSound(t, base, 0);
    var vs := PreOrder(t, base);
    forall k | 0 <= k < |vs|
      ensures |base| <= |vs[k].path| && vs[k].path[..|base|] == base &&
              ValidPath(t, vs[k].path[|base|..]) && NodeAt(t, vs[k].path[|base|..]) == vs[k].node
    {
      if k == 0 {
        assert vs[0].path[|base|..] == [];
      } else {
        assert vs[k] == PreOrderFrom(t, base, 0)[k - 1];
      }
    }
  }

  lemma {:induction false} PreOrderFromSound(t: TreeNode, base: Path, i: nat)
    ensures VisitsBelow(t, base, PreOrderFrom(t, base, i))
    decreases t, 0, |t.children| - i
  {
    if i < |t.children| {
      var c := t.children[i];
      var head := PreOrder(c, base + [i]);
      PreOrderSound(c, base + [i]);
      PreOrderFromSound(t, base, i + 1);
      var vs := PreOrderFrom(t, base, i);
      forall k | 0 <= k < |vs|
        ensures |base| <= |vs[k].path| && vs[k].path[..|base|] == base &&
                ValidPath(t, vs[k].path[|base|..]) && NodeAt(t, vs[k].path[|base|..]) == vs[k].node
      {
        if k < |head| {
          var p := vs[k].path;
          assert vs[k] == head[k];
          assert p[..|base| + 1] == base + [i];
          assert p[..|base|] == (base + [i])[..|base|] == base;
          var rel := p[|base|..];
          assert rel[0] == i && rel[1..] == p[|base| + 1..];
        } else {
          assert vs[k] == PreOrderFrom(t, base, i + 1)[k - |head|];
        }
      }
    }
  }

  /** Every node of the subtree is visited. */
  lemma {:induction false} PreOrderComplete(t: TreeNode, base: Path, p: Path)
    requires ValidPath(t, p)
    ensures Visit(base + p, NodeAt(t, p)) in PreOrder(t, base)
    decreases p
  {
    if p == [] {
      assert base + p == base;
    } else {
      var i := p[0];
      PreOrderComplete(t.children[i], base + [i], p[1..]);
      assert base + [i] + p[1..] == base + p;
      PreOrderFromContains(t, base, 0, i);
    }
  }

  lemma {:induction false} PreOrderFromContains(t: TreeNode, base: Path, i: nat, j: nat)
    requires i <= j < |t.children|
    ensures forall v :: v in PreOrder(t.children[j], base + [j]) ==> v in PreOrderFrom(t, base, i)
    decreases j - i
  {
    if i < j {
      PreOrderFromContains(t, base, i + 1, j);
    }
  }

  /** The tree with the node at position `p` replaced by `n`. */
  function ReplaceAt(t: TreeNode, p: Path, n: TreeNode): (r: TreeNode)
    requires ValidPath(t, p)
    ensures ValidPath(r, p) && NodeAt(r, p) == n
    decreases p
  {
    if p == [] then n
    else t.(children := t.children[p[0] := ReplaceAt(t.children[p[0]], p[1..], n)])
  }
}
