/** The three tree queries of the menu (`findNode`, `findParent`,
    `findHeader`; the older menu carries identical copies of the last two).
    A node is given by its position, so `findParent`'s comparison of node
    references becomes a comparison of positions. */
module TreeQueries {
  import opened Basics
  import opened Trees

  /** `findNode`: depth-first search by name, the node itself first, then its
      children in order. */
  function FindNode(t: TreeNode, name: string, base: Path): Option<Path>
    decreases t, 1
  {
    if t.name == name then Some(base) else FindNodeFrom(t, name, base, 0)
  }

  function FindNodeFrom(t: TreeNode, name: string, base: Path, i: nat): Option<Path>
    decreases t, 0, |t.children| - i
  {
    if i >= |t.children| then None
    else
      match FindNode(t.children[i], name, base + [i])
      case Some(p) => Some(p)
      case None => FindNodeFrom(t, name, base, i + 1)
  }

  /** Reference search: the first visit of a sequence whose node has the name. */
  function FirstNamed(vs: seq<Visit>, name: string): (r: Option<Path>)
    ensures r.None? <==> forall k :: 0 <= k < |vs| ==> vs[k].node.name != name
    ensures r.Some? ==> exists k :: 0 <= k < |vs| && vs[k].path == r.value && vs[k].node.name == name &&
                          forall j :: 0 <= j < k ==> vs[j].node.name != name
  {
    if vs == [] then None
    else if vs[0].node.name == name then Some(vs[0].path)
    else
      var r := FirstNamed(vs[1..], name);
      assert forall k :: 1 <= k < |vs| ==> vs[k] == vs[1..][k - 1];
      if r.Some? then
        var k' :| 0 <= k' < |vs| - 1 && vs[1..][k'].path == r.value && vs[1..][k'].node.name == name &&
                    forall j :: 0 <= j < k' ==> vs[1..][j].node.name != name;
        assert vs[k' + 1] == vs[1..][k'];
        r
      else r
  }

  lemma {:induction false} FirstNamedAppend(a: seq<Visit>, b: seq<Visit>, name: string)
    ensures FirstNamed(a + b, name) == if FirstNamed(a, name).Some? then FirstNamed(a, name) else FirstNamed(b, name)
    decreases |a|
  {
    if a != [] {
      assert (a + b)[1..] == a[1..] + b;
      assert (a + b)[0] == a[0];
      FirstNamedAppend(a[1..], b, name);
    } else {
      assert a + b == b;
    }
  }

  /** `findNode` returns the first node of the pre-order enumeration that
      carries the name, and nothing when no node does. */
  lemma {:induction false} FindNodeIsFirstInPreOrder(t: TreeNode, name: string, base: Path)
    ensures FindNode(t, name, base) == FirstNamed(PreOrder(t, base), name)
    decreases t, 1
  {
    FindNodeFromIsFirst(t, name, base, 0);
    FirstNamedAppend([Visit(base, t)], PreOrderFrom(t, base, 0), name);
    assert FirstNamed([Visit(base, t)], name) == if t.name == name then Some(base) else None by {
      assert [Visit(base, t)][1..] == [];
    }
  }

  lemma {:induction false} FindNodeFromIsFirst(t: TreeNode, name: string, base: Path, i: nat)
    ensures FindNodeFrom(t, name, base, i) == FirstNamed(PreOrderFrom(t, base, i), name)
    decreases t, 0, |t.children| - i
  {
    if i < |t.children| {
      FindNodeIsFirstInPreOrder(t.children[i], name, base + [i]);
      FindNodeFromIsFirst(t, name, base, i + 1);
      FirstNamedAppend(PreOrder(t.children[i], base + [i]), PreOrderFrom(t, base, i + 1), name);
    }
  }

  /** What `findNode` finds from the root: a node with that name, and nothing
      exactly when no node of the tree has that name. */
  lemma FindNodeFinds(root: TreeNode, name: string)
    ensures var r := FindNode(root, name, []);
      (r.Some? ==> ValidPath(root, r.value) && NodeAt(root, r.value).name == name) &&
      (r.None? <==> forall p :: ValidPath(root, p) ==> NodeAt(root, p).name != name)
  {
    var vs := PreOrder(root, []);
    FindNodeIsFirstInPreOrder(root, name, []);
    PreOrderSound(root, []);
    var r := FindNode(root, name, []);
    if r.Some? {
      var k :| 0 <= k < |vs| && vs[k].path == r.value && vs[k].node.name == name;
      assert vs[k].path[0..] == vs[k].path;
    } else {
      forall p | ValidPath(root, p) ensures NodeAt(root, p).name != name {
        PreOrderComplete(root, [], p);
        assert [] + p == p;
      }
    }
  }

  /** The node at position `target` is a child of the node `t` at position `here`
      (`allNodes.children.includes(targetNode)`). */
  predicate IsChildPosition(t: TreeNode, here: Path, target: Path) {
    |target| == |here| + 1 && target[..|here|] == here && target[|here|] < |t.children|
  }

  /** `findParent`: is the target one of my children; otherwise ask each child in turn. */
  function FindParent(t: TreeNode, here: Path, target: Path): Option<Path>
    decreases t, 1
  {
    if IsChildPosition(t, here, target) then Some(here) else FindParentFrom(t, here, target, 0)
  }

  function FindParentFrom(t: TreeNode, here: Path, target: Path, i: nat): Option<Path>
    decreases t, 0, |t.children| - i
  {
    if i >= |t.children| then None
    else
      match FindParent(t.children[i], here + [i], target)
      case Some(p) => Some(p)
      case None => FindParentFrom(t, here, target, i + 1)
  }

  /** The target lies strictly below the subtree root sitting at `here`. */
  predicate StrictlyBelow(t: TreeNode, here: Path, target: Path) {
    |target| > |here| && target[..|here|] == here && ValidPath(t, target[|here|..])
  }

  /** `findParent` finds the position one step up from the target, and nothing
      for the subtree root itself or for a node not in the subtree. */
  lemma {:induction false} FindParentIsInit(t: TreeNode, here: Path, target: Path)
    ensures FindParent(t, here, target) ==
            if StrictlyBelow(t, here, target) then Some(target[..|target| - 1]) else None
    decreases t, 1
  {
    if IsChildPosition(t, here, target) {
      assert target[|here|..] == [target[|here|]];
      assert ValidPath(t.children[target[|here|]], target[|here|..][1..]);
    } else {
      FindParentFromIsInit(t, here, target, 0);
      if |target| > |here| && target[..|here|] == here {
        var rel := target[|here|..];
        if |target| == |here| + 1 {
          assert !ValidPath(t, rel);
        }
      }
    }
  }

  lemma {:induction false} FindParentFromIsInit(t: TreeNode, here: Path, target: Path, i: nat)
    requires !IsChildPosition(t, here, target)
    ensures FindParentFrom(t, here, target, i) ==
            if StrictlyBelow(t, here, target) && |target| > |here| + 1 && target[|here|] >= i
            then Some(target[..|target| - 1]) else None
    decreases t, 0, |t.children| - i
  {
    if i < |t.children| {
      var h := here + [i];
      FindParentIsInit(t.children[i], h, target);
      FindParentFromIsInit(t, here, target, i + 1);
      if |target| > |here| && target[..|here|] == here {
        var rel := target[|here|..];
        if |target| > |here| + 1 {
          assert rel[0] == target[|here|];
          assert rel[1..] == target[|h|..];
          if target[..|h|] == h {
            assert target[|here|] == i by { assert target[..|h|][|here|] == target[|here|]; }
          } else {
            assert target[..|h|] == here + [target[|here|]];
          }
        }
      } else if |target| > |h| {
        assert target[..|h|][..|here|] == target[..|here|];
      }
    } else {
      if StrictlyBelow(t, here, target) && |target| > |here| + 1 {
        assert target[|here|..][0] == target[|here|];
      }
    }
  }

  /** `findParent` from the root: the parent position of any node of the tree
      other than the root, and nothing for the root or a node not in the tree. */
  lemma FindParentFromRoot(root: TreeNode, target: Path)
    ensures FindParent(root, [], target) ==
            if target != [] && ValidPath(root, target) then Some(target[..|target| - 1]) else None
  {
    FindParentIsInit(root, [], target);
    assert target[..0] == [] && target[0..] == target;
  }

  /** No node strictly between depth `lo` and the target is a header. */
  predicate NoHeaderBetween(root: TreeNode, target: Path, lo: nat) {
    forall n :: lo < n < |target| ==> ValidPath(root, target[..n]) && NodeAt(root, target[..n]).kind != Header
  }

  /** The deepest header strictly above the target among its ancestors at
      depths 1..n, or the root position when there is none. */
  function HeaderAtOrAbove(root: TreeNode, target: Path, n: nat): (h: Path)
    requires ValidPath(root, target) && n < |target|
    ensures |h| <= n && h == target[..|h|] && ValidPath(root, h)
  {
    ValidPathPrefix(root, target, n);
    ValidPathPrefix(root, target, 0);
    if n == 0 then []
    else if NodeAt(root, target[..n]).kind == Header then target[..n]
    else HeaderAtOrAbove(root, target, n - 1)
  }

  /** The nearest header ancestor of a node, or the root when no ancestor
      below the root is a header (and for the root itself). */
  function NearestHeader(root: TreeNode, target: Path): (h: Path)
    requires ValidPath(root, target)
    ensures ValidPath(root, h) && |h| <= |target| && h == target[..|h|]
  {
    if target == [] then [] else HeaderAtOrAbove(root, target, |target| - 1)
  }

  lemma {:induction false} HeaderAtOrAboveSkips(root: TreeNode, target: Path, m: nat, n: nat)
    requires ValidPath(root, target) && m <= n < |target|
    requires NoHeaderBetween(root, target, m)
    ensures HeaderAtOrAbove(root, target, n) == HeaderAtOrAbove(root, target, m)
    decreases n
  {
    if m < n {
      HeaderAtOrAboveSkips(root, target, m, n - 1);
    }
  }

  /** `findHeader`: walk up through the parents until a header is met; when
      the walk runs off the root, the root itself is the answer. */
  method FindHeader(root: TreeNode, target: Path) returns (h: Path)
    ensures ValidPath(root, h)
    ensures !(target != [] && ValidPath(root, target)) ==> h == []
    ensures target != [] && ValidPath(root, target) ==>
              |h| < |target| && target[..|h|] == h &&
              (h == [] || NodeAt(root, h).kind == Header) &&
              NoHeaderBetween(root, target, |h|)
    ensures ValidPath(root, target) ==> h == NearestHeader(root, target)
  {
    FindParentFromRoot(root, target);
    var parent := FindParent(root, [], target);
    while true
      invariant parent.Some? ==>
        && target != [] && ValidPath(root, target)
        && |parent.value| < |target| && target[..|parent.value|] == parent.value
        && NoHeaderBetween(root, target, |parent.value|)
      invariant parent.None? && target != [] && ValidPath(root, target) ==> NoHeaderBetween(root, target, 0)
      decreases if parent.Some? then |parent.value| + 1 else 0
    {
      if parent.None? {
        if target != [] && ValidPath(root, target) {
          HeaderAtOrAboveSkips(root, target, 0, |target| - 1);
        }
        return [];
      }
      var q := parent.value;
      ValidPathPrefix(root, target, |q|);
      if NodeAt(root, q).kind == Header {
        HeaderAtOrAboveSkips(root, target, |q|, |target| - 1);
        return q;
      }
      FindParentFromRoot(root, q);
      if q != [] {
        assert q[..|q| - 1] == target[..|q| - 1];
      }
      parent := FindParent(root, [], q);
    }
  }
}
