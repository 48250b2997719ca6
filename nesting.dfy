/** Nesting of a tag's challenges under their parents (`recursiveNesting` in
    the current menu, `NestingMagic` in the older one: the two are the same
    code). Each pending entry carries the `parentName` derived from the whole
    catalog; an entry is placed under the entry whose name equals it. The
    recursion starts at the roots, so it only follows chains of distinct
    names and always ends; entries whose parents never lead to a root (a
    missing parent, a cycle) are left out. */
module Nesting {
  import opened Basics
  import opened Trees

  /** A transformed challenge awaiting nesting: its node (children not yet
      assigned) and its derived `parentName`. */
  datatype Pending = Pending(node: TreeNode, parentName: Option<string>)

  /** Entries with the same name name the same parent: the builders derive
      `parentName` from the name alone (the first record listing it). */
  predicate ParentsByName(es: seq<Pending>) {
    forall i, j :: 0 <= i < |es| && 0 <= j < |es| && es[i].node.name == es[j].node.name ==>
      es[i].parentName == es[j].parentName
  }

  /** Some entry is named `name` and names `parent` as its parent. */
  predicate HasEntry(es: seq<Pending>, name: string, parent: Option<string>) {
    exists j :: 0 <= j < |es| && es[j].node.name == name && es[j].parentName == parent
  }

  /** `chain` lists the names from a root down to `parent`: the first has no
      parent, each later one is the child of the one before, and no name
      repeats. The recursion of `recursiveNesting` only ever follows such a
      chain, starting from the roots. */
  predicate ChainOf(es: seq<Pending>, parent: Option<string>, chain: seq<string>) {
    && parent == (if chain == [] then None else Some(chain[|chain| - 1]))
    && (forall a, b :: 0 <= a < b < |chain| ==> chain[a] != chain[b])
    && (forall k :: 0 <= k < |chain| ==> HasEntry(es, chain[k], if k == 0 then None else Some(chain[k - 1])))
  }

  function Names(es: seq<Pending>): set<string> {
    set j | 0 <= j < |es| :: es[j].node.name
  }

  /** The names not yet on the chain: the recursion removes one each level. */
  function Remaining(es: seq<Pending>, chain: seq<string>): set<string> {
    Names(es) - (set x | x in chain)
  }

  lemma ChainEntry(es: seq<Pending>, parent: Option<string>, chain: seq<string>, k: nat)
    requires ChainOf(es, parent, chain) && k < |chain|
    ensures HasEntry(es, chain[k], if k == 0 then None else Some(chain[k - 1]))
  {
  }

  /** A child of the last name of a chain is not on the chain, so the chain
      grows by a fresh name and the remaining names shrink. */
  lemma ChildExtends(es: seq<Pending>, parent: Option<string>, chain: seq<string>, e: Pending)
    requires ParentsByName(es) && ChainOf(es, parent, chain)
    requires e in es && e.parentName == parent
    ensures e.node.name !in chain
    ensures ChainOf(es, Some(e.node.name), chain + [e.node.name])
    ensures Remaining(es, chain + [e.node.name]) < Remaining(es, chain)
  {
    var i :| 0 <= i < |es| && es[i] == e;
    var n := e.node.name;
    forall k | 0 <= k < |chain|
      ensures chain[k] != n
    {
      var pk := if k == 0 then None else Some(chain[k - 1]);
      assert pk != parent;
      var j :| 0 <= j < |es| && es[j].node.name == chain[k] && es[j].parentName == pk;
      assert es[j].parentName != es[i].parentName;
    }
    var c := chain + [n];
    forall k | 0 <= k < |c|
      ensures HasEntry(es, c[k], if k == 0 then None else Some(c[k - 1]))
    {
      var pk := if k == 0 then None else Some(c[k - 1]);
      if k < |chain| {
        assert c[k] == chain[k];
        if k > 0 {
          assert c[k - 1] == chain[k - 1];
        }
        ChainEntry(es, parent, chain, k);
      } else {
        assert es[i].node.name == c[k] && es[i].parentName == pk;
      }
    }
    assert Some(n) == Some(c[|c| - 1]);
    assert forall a, b :: 0 <= a < b < |c| ==> c[a] != c[b];
    assert ChainOf(es, Some(n), c);
    assert n in Names(es);
    assert (set x | x in c) == (set x | x in chain) + {n};
  }

  /** The forest of entries whose `parentName` is `parent`, in input order,
      each with its own children nested the same way. */
  ghost function Nested(es: seq<Pending>, parent: Option<string>, chain: seq<string>): seq<TreeNode>
    requires ParentsByName(es) && ChainOf(es, parent, chain)
    decreases Remaining(es, chain), |es| + 1
  {
    NestedFrom(es, parent, chain, 0)
  }

  ghost function NestedFrom(es: seq<Pending>, parent: Option<string>, chain: seq<string>, i: nat): seq<TreeNode>
    requires ParentsByName(es) && ChainOf(es, parent, chain)
    decreases Remaining(es, chain), |es| - i
  {
    if i >= |es| then []
    else if es[i].parentName == parent then
      ChildExtends(es, parent, chain, es[i]);
      var n := es[i].node.name;
      [es[i].node.(children := Nested(es, Some(n), chain + [n]))] + NestedFrom(es, parent, chain, i + 1)
    else NestedFrom(es, parent, chain, i + 1)
  }

  /** `recursiveNesting(challenges)`: the forest hanging from the roots. */
  ghost function Forest(es: seq<Pending>): seq<TreeNode>
    requires ParentsByName(es)
  {
    Nested(es, None, [])
  }

  /** `recursiveNesting(challenges, parentName)`: one pass over the entries,
      each entry whose parent matches gets its children by a recursive call and
      is pushed on the result. */
  method RecursiveNesting(es: seq<Pending>, parent: Option<string>, ghost chain: seq<string>) returns (tree: seq<TreeNode>)
    requires ParentsByName(es) && ChainOf(es, parent, chain)
    ensures tree == Nested(es, parent, chain)
    decreases Remaining(es, chain)
  {
    tree := [];
    for i := 0 to |es|
      invariant tree + NestedFrom(es, parent, chain, i) == Nested(es, parent, chain)
    {
      if es[i].parentName == parent {
        var name := es[i].node.name;
        ChildExtends(es, parent, chain, es[i]);
        var kids := RecursiveNesting(es, Some(name), chain + [name]);
        assert NestedFrom(es, parent, chain, i) == [es[i].node.(children := kids)] + NestedFrom(es, parent, chain, i + 1);
        tree := tree + [es[i].node.(children := kids)];
      } else {
        assert NestedFrom(es, parent, chain, i) == NestedFrom(es, parent, chain, i + 1);
      }
    }
  }

  /** The entries whose `parentName` is `parent`, in input order. */
  function Selected(es: seq<Pending>, parent: Option<string>): seq<Pending> {
    if es == [] then []
    else (if es[0].parentName == parent then [es[0]] else []) + Selected(es[1..], parent)
  }

  lemma {:induction false} SelectedMembers(es: seq<Pending>, parent: Option<string>)
    ensures forall e :: e in Selected(es, parent) <==> e in es && e.parentName == parent
  {
    if es != [] {
      SelectedMembers(es[1..], parent);
      assert es == [es[0]] + es[1..];
    }
  }

  /** Each selected entry with its children attached. */
  ghost function Attached(es: seq<Pending>, parent: Option<string>, chain: seq<string>, sel: seq<Pending>): seq<TreeNode>
    requires ParentsByName(es) && ChainOf(es, parent, chain)
    requires forall e :: e in sel ==> e in es && e.parentName == parent
  {
    if sel == [] then []
    else
      ChildExtends(es, parent, chain, sel[0]);
      var n := sel[0].node.name;
      [sel[0].node.(children := Nested(es, Some(n), chain + [n]))] + Attached(es, parent, chain, sel[1..])
  }

  /** `recursiveNesting(cs, p)` returns, in input order, exactly the entries
      whose `parentName` is `p`, each carrying the nesting of its own name as
      children. */
  lemma NestedSelects(es: seq<Pending>, parent: Option<string>, chain: seq<string>)
    requires ParentsByName(es) && ChainOf(es, parent, chain)
    ensures forall e :: e in Selected(es, parent) ==> e in es && e.parentName == parent
    ensures Nested(es, parent, chain) == Attached(es, parent, chain, Selected(es, parent))
  {
    SelectedMembers(es, parent);
    NestedFromSelects(es, parent, chain, 0);
    assert es[0..] == es;
  }

  lemma {:induction false} NestedFromSelects(es: seq<Pending>, parent: Option<string>, chain: seq<string>, i: nat)
    requires ParentsByName(es) && ChainOf(es, parent, chain)
    requires i <= |es|
    ensures forall e :: e in Selected(es[i..], parent) ==> e in es && e.parentName == parent
    ensures NestedFrom(es, parent, chain, i) == Attached(es, parent, chain, Selected(es[i..], parent))
    decreases |es| - i
  {
    SelectedMembers(es[i..], parent);
    if i < |es| {
      NestedFromSelects(es, parent, chain, i + 1);
      assert es[i..][1..] == es[i + 1..];
      assert es[i..][0] == es[i];
      if es[i].parentName == parent {
        assert Selected(es[i..], parent) == [es[i]] + Selected(es[i + 1..], parent);
      } else {
        assert es[i..] != [];
        assert Selected(es[i..], parent) == [] + Selected(es[i + 1..], parent) == Selected(es[i + 1..], parent);
      }
    }
  }

  /** No node of the subtree carries a name of `xs`. */
  predicate NoneNamed(t: TreeNode, xs: set<string>) {
    t.name !in xs && forall i :: 0 <= i < |t.children| ==> NoneNamed(t.children[i], xs)
  }

  /** The names `xs` do not lead up to a root: every entry named in `xs` has a
      parent, and that parent is again in `xs` or is not the name of any entry.
      This covers a challenge whose parent is missing and the challenges on a
      cycle of parents. */
  predicate Unrooted(es: seq<Pending>, xs: set<string>) {
    forall j :: 0 <= j < |es| && es[j].node.name in xs ==>
      es[j].parentName.Some? && (es[j].parentName.value in xs || es[j].parentName.value !in Names(es))
  }

  /** Entries that do not lead up to a root are placed nowhere: no node of
      the nested forest, at any depth, carries one of their names. */
  lemma NestedOmitsUnrooted(es: seq<Pending>, parent: Option<string>, chain: seq<string>, xs: set<string>)
    requires ParentsByName(es) && ChainOf(es, parent, chain)
    requires Unrooted(es, xs)
    requires parent.Some? ==> parent.value !in xs && parent.value in Names(es)
    ensures forall k :: 0 <= k < |Nested(es, parent, chain)| ==> NoneNamed(Nested(es, parent, chain)[k], xs)
    decreases Remaining(es, chain), |es| + 1
  {
    NestedFromOmitsUnrooted(es, parent, chain, 0, xs);
  }

  lemma {:induction false} NestedFromOmitsUnrooted(es: seq<Pending>, parent: Option<string>, chain: seq<string>, i: nat, xs: set<string>)
    requires ParentsByName(es) && ChainOf(es, parent, chain)
    requires Unrooted(es, xs)
    requires parent.Some? ==> parent.value !in xs && parent.value in Names(es)
    ensures forall k :: 0 <= k < |NestedFrom(es, parent, chain, i)| ==> NoneNamed(NestedFrom(es, parent, chain, i)[k], xs)
    decreases Remaining(es, chain), |es| - i
  {
    if i < |es| {
      NestedFromOmitsUnrooted(es, parent, chain, i + 1, xs);
      if es[i].parentName == parent {
        var name := es[i].node.name;
        ChildExtends(es, parent, chain, es[i]);
        assert name in Names(es);
        assert name !in xs;
        NestedOmitsUnrooted(es, Some(name), chain + [name], xs);
        var n := es[i].node.(children := Nested(es, Some(name), chain + [name]));
        assert NoneNamed(n, xs);
        assert NestedFrom(es, parent, chain, i) == [n] + NestedFrom(es, parent, chain, i + 1);
      }
    }
  }

  /** What every entry's node satisfies on its own fields, every node of the
      nested forest satisfies, at any depth. */
  lemma NestedEvery(es: seq<Pending>, parent: Option<string>, chain: seq<string>, P: TreeNode -> bool)
    requires ParentsByName(es) && ChainOf(es, parent, chain)
    requires forall j :: 0 <= j < |es| ==> P(Strip(es[j].node))
    ensures forall k :: 0 <= k < |Nested(es, parent, chain)| ==> Every(Nested(es, parent, chain)[k], P)
    decreases Remaining(es, chain), |es| + 1
  {
    NestedFromEvery(es, parent, chain, 0, P);
  }

  lemma {:induction false} NestedFromEvery(es: seq<Pending>, parent: Option<string>, chain: seq<string>, i: nat, P: TreeNode -> bool)
    requires ParentsByName(es) && ChainOf(es, parent, chain)
    requires forall j :: 0 <= j < |es| ==> P(Strip(es[j].node))
    ensures forall k :: 0 <= k < |NestedFrom(es, parent, chain, i)| ==> Every(NestedFrom(es, parent, chain, i)[k], P)
    decreases Remaining(es, chain), |es| - i
  {
    if i < |es| {
      NestedFromEvery(es, parent, chain, i + 1, P);
      if es[i].parentName == parent {
        var name := es[i].node.name;
        ChildExtends(es, parent, chain, es[i]);
        NestedEvery(es, Some(name), chain + [name], P);
        var n := es[i].node.(children := Nested(es, Some(name), chain + [name]));
        assert Strip(n) == Strip(es[i].node);
        assert Every(n, P);
        assert NestedFrom(es, parent, chain, i) == [n] + NestedFrom(es, parent, chain, i + 1);
      }
    }
  }
}
