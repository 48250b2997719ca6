/** The older menu (src/utils/tree.ts): per-type action lists, tag headers
    kept even when empty, parallel lists of choice texts and target nodes, a
    back option inserted in front when the current node has a parent, and the
    follow-up of a selection. A node is given by its position in the tree. */
module LegacyTree {
  import opened Basics
  import opened Records
  import opened Trees
  import opened Catalog
  import opened Nesting
  import opened ChoiceWalk
  import opened TreeQueries

  // ---------------------------------------------------------------- building

  /** The labels of the actions pushed for a record, by its type. */
  function LegacyActions(k: Kind): (r: seq<string>)
    ensures k == Challenge <==> r == ["Setup Challenge Repository", "Test Challenge", "Deploy Completed Contract"]
    ensures k == Quiz <==> r == ["Mark as Read"]
    ensures k == CapstoneProject <==> r == ["Submit Project"]
    ensures r == [] <==> k != Challenge && k != Quiz && k != CapstoneProject
  {
    if k == Challenge then ["Setup Challenge Repository", "Test Challenge", "Deploy Completed Contract"]
    else if k == Quiz then ["Mark as Read"]
    else if k == CapstoneProject then ["Submit Project"]
    else []
  }

  /** The transformed record: label, name, level, type and actions; the
      other fields are left undefined. */
  function LegacyNode(c: ChallengeRecord): TreeNode {
    TreeNode(c.labelText, c.name, KindOf(c.kind), c.level, false, false, false,
             LegacyActions(KindOf(c.kind)), false, "", [])
  }

  function LegacyTransformed(cs: seq<ChallengeRecord>, fs: seq<ChallengeRecord>): (r: seq<Pending>)
    ensures |r| == |fs|
    ensures forall k :: 0 <= k < |fs| ==> r[k] == Pending(LegacyNode(fs[k]), ParentName(cs, fs[k].name))
    ensures ParentsByName(r)
  {
    if fs == [] then []
    else LegacyTransformed(cs, fs[..|fs| - 1]) + [Pending(LegacyNode(fs[|fs| - 1]), ParentName(cs, fs[|fs| - 1].name))]
  }

  /** The header of one tag: labelled by the tag alone, its challenges nested
      under it. */
  ghost function LegacyTagTree(cs: seq<ChallengeRecord>, tag: string): TreeNode
  {
    HeaderNode(tag, Lower(tag), true, "", Forest(LegacyTransformed(cs, TagMembers(cs, tag))))
  }

  ghost function LegacyTagTrees(cs: seq<ChallengeRecord>, tags: seq<string>): (r: seq<TreeNode>)
    ensures |r| == |tags|
    ensures forall k :: 0 <= k < |tags| ==> r[k] == LegacyTagTree(cs, tags[k])
  {
    if tags == [] then [] else LegacyTagTrees(cs, tags[..|tags| - 1]) + [LegacyTagTree(cs, tags[|tags| - 1])]
  }

  /** The tree the older `buildTree` returns. */
  ghost function LegacyBuilt(cs: seq<ChallengeRecord>): TreeNode
  {
    HeaderNode("Main Menu", "main-menu", false, "", LegacyTagTrees(cs, CollectTags(cs)))
  }

  /** `buildTree`: one header per collected tag, kept even when no challenge
      lands in it. */
  method BuildLegacyTree(cs: seq<ChallengeRecord>) returns (t: TreeNode)
    ensures t == LegacyBuilt(cs)
  {
    var tags := CollectTags(cs);
    var tree: seq<TreeNode> := [];
    for ti := 0 to |tags|
      invariant tree == LegacyTagTrees(cs, tags[..ti])
    {
      var header := LegacyTagHeader(cs, tags[ti]);
      tree := tree + [header];
      assert tags[..ti + 1][..ti] == tags[..ti];
    }
    assert tags[..|tags|] == tags;
    t := HeaderNode("Main Menu", "main-menu", false, "", tree);
  }

  /** The body of `buildTree`'s loop for one tag. */
  method LegacyTagHeader(cs: seq<ChallengeRecord>, tag: string) returns (h: TreeNode)
    ensures h == LegacyTagTree(cs, tag)
  {
    var filtered := TagMembers(cs, tag);
    var transformed: seq<Pending> := [];
    for k := 0 to |filtered|
      invariant transformed == LegacyTransformed(cs, filtered[..k])
    {
      assert filtered[..k + 1][..k] == filtered[..k];
      var p := LegacyTransform(cs, filtered[k]);
      transformed := transformed + [p];
    }
    assert filtered[..|filtered|] == filtered;
    var nested := RecursiveNesting(transformed, None, []);
    assert nested == Forest(LegacyTransformed(cs, filtered));
    h := HeaderNode(tag, Lower(tag), true, "", nested);
  }

  /** The `map` callback: the parent name and the actions pushed by type. */
  method LegacyTransform(cs: seq<ChallengeRecord>, c: ChallengeRecord) returns (p: Pending)
    ensures p == Pending(LegacyNode(c), ParentName(cs, c.name))
  {
    var parentName := ParentName(cs, c.name);
    var kind := KindOf(c.kind);
    var actions: seq<string> := [];
    if kind == Challenge {
      actions := actions + ["Setup Challenge Repository"];
      actions := actions + ["Test Challenge"];
      actions := actions + ["Deploy Completed Contract"];
    } else if kind == Quiz {
      actions := actions + ["Mark as Read"];
    } else if kind == CapstoneProject {
      actions := actions + ["Submit Project"];
    }
    p := Pending(TreeNode(c.labelText, c.name, kind, c.level, false, false, false, actions, false, "", []), parentName);
  }

  /** The root lists every collected tag, in order and once each, as a
      recursive header labelled by the tag, whether or not it received a
      challenge. */
  lemma LegacyTreeShape(cs: seq<ChallengeRecord>)
    ensures var t := LegacyBuilt(cs);
      var tags := CollectTags(cs);
      && t.name == "main-menu" && t.kind == Header && !t.recursive
      && |t.children| == |tags|
      && (forall i :: 0 <= i < |tags| ==>
            t.children[i].labelText == tags[i] && t.children[i].name == Lower(tags[i]) &&
            t.children[i].kind == Header && t.children[i].recursive)
      && (forall i, j :: 0 <= i < j < |t.children| ==> t.children[i].labelText != t.children[j].labelText)
      && (forall tag :: tag in tags <==> exists i :: 0 <= i < |t.children| && t.children[i].labelText == tag)
      && (forall tag :: tag in tags <==> exists r :: 0 <= r < |cs| && tag in cs[r].tags)
  {
    CollectTagsIsDedup(cs);
    var tags := CollectTags(cs);
    var kids := LegacyTagTrees(cs, tags);
    assert LegacyBuilt(cs).children == kids;
    forall i | 0 <= i < |tags|
      ensures kids[i].labelText == tags[i] && kids[i].name == Lower(tags[i])
      ensures kids[i].kind == Header && kids[i].recursive
    {
      assert kids[i] == LegacyTagTree(cs, tags[i]);
    }
    forall tag | tag in tags
      ensures exists i :: 0 <= i < |kids| && kids[i].labelText == tag
    {
      var i :| 0 <= i < |tags| && tags[i] == tag;
      assert kids[i].labelText == tag;
    }
  }

  /** Every node under a tag header carries the action list of its type and
      is not recursive. */
  lemma LegacyNodesCarryActions(cs: seq<ChallengeRecord>, tag: string)
    ensures var h := LegacyTagTree(cs, tag);
      forall k :: 0 <= k < |h.children| ==>
        Every(h.children[k], (n: TreeNode) => n.actions == LegacyActions(n.kind) && !n.recursive)
  {
    var es := LegacyTransformed(cs, TagMembers(cs, tag));
    NestedEvery(es, None, [], (n: TreeNode) => n.actions == LegacyActions(n.kind) && !n.recursive);
  }

  // ------------------------------------------------------------ the choices

  /** The level as the older label prints it. */
  function LevelSuffix(level: int): string {
    " - LVL " + IntToString(level)
  }

  /** The marker placed before the level for the three record types. */
  function TypeMarker(k: Kind): string {
    if k == Challenge then " ♟️" else if k == Quiz then " \U{1F4D6}" else " \U{1F3C6}"
  }

  lemma MarkedParts(base: string, marker: string, lvl: string)
    ensures IsPrefix(base, base + (marker + lvl))
    ensures EndsWith(base + (marker + lvl), marker + lvl)
    ensures EndsWith(base + (marker + lvl), lvl)
  {
    var r := base + (marker + lvl);
    assert r[..|base|] == base;
    assert r[|r| - |marker + lvl|..] == marker + lvl;
    assert r[|r| - |lvl|..] == (marker + lvl)[|marker|..] == lvl;
  }

  /** The older `getNodeLabel`: the prefix, a space, the label, then for the
      three record types a marker and the level. */
  function LegacyLabel(n: TreeNode, depth: string): (r: string)
    ensures IsPrefix(depth + " " + n.labelText, r)
    ensures n.kind in {Challenge, Quiz, CapstoneProject} ==> EndsWith(r, LevelSuffix(n.level))
    ensures n.kind == Challenge ==> EndsWith(r, " ♟️" + LevelSuffix(n.level))
    ensures n.kind == Quiz ==> EndsWith(r, " \U{1F4D6}" + LevelSuffix(n.level))
    ensures n.kind == CapstoneProject ==> EndsWith(r, " \U{1F3C6}" + LevelSuffix(n.level))
    ensures n.kind !in {Challenge, Quiz, CapstoneProject} ==> r == depth + " " + n.labelText
  {
    var base := depth + " " + n.labelText;
    if n.kind in {Challenge, Quiz, CapstoneProject} then
      MarkedParts(base, TypeMarker(n.kind), LevelSuffix(n.level));
      base + (TypeMarker(n.kind) + LevelSuffix(n.level))
    else base
  }

  /** The rows listed at a node: its children when it is not recursive,
      otherwise its whole subtree walked with half-label padding. */
  function LegacyRows(root: TreeNode, at: Path): seq<Row>
    requires ValidPath(root, at)
  {
    var node := NodeAt(root, at);
    if !node.recursive then
      seq(|node.children|, i requires 0 <= i < |node.children| => Row("", at + [i], node.children[i]))
    else Walk(node, at, false, "", Legacy)
  }

  function LabelsOf(rows: seq<Row>): (r: seq<string>)
    ensures |r| == |rows|
    ensures forall k :: 0 <= k < |rows| ==> r[k] == LegacyLabel(rows[k].node, rows[k].prefix)
  {
    seq(|rows|, k requires 0 <= k < |rows| => LegacyLabel(rows[k].node, rows[k].prefix))
  }

  lemma ListedStep(rows: seq<Row>, k: nat)
    requires k < |rows|
    ensures LabelsOf(rows[..k + 1]) == LabelsOf(rows[..k]) + [LegacyLabel(rows[k].node, rows[k].prefix)]
    ensures PathsOf(rows[..k + 1]) == PathsOf(rows[..k]) + [rows[k].path]
  {
    assert rows[..k + 1][..k] == rows[..k];
    var a := LabelsOf(rows[..k + 1]);
    var b := LabelsOf(rows[..k]) + [LegacyLabel(rows[k].node, rows[k].prefix)];
    forall i | 0 <= i <= k
      ensures a[i] == b[i]
    {
      assert rows[..k + 1][i] == rows[i];
      if i < k {
        assert rows[..k][i] == rows[i];
      }
    }
  }

  function PathsOf(rows: seq<Row>): (r: seq<Path>)
    ensures |r| == |rows|
    ensures forall k :: 0 <= k < |rows| ==> r[k] == rows[k].path
  {
    if rows == [] then [] else PathsOf(rows[..|rows| - 1]) + [rows[|rows| - 1].path]
  }

  /** `getChoicesAndActions` of the older menu: two lists pushed in step. */
  method LegacyChoicesAndActions(root: TreeNode, at: Path) returns (choices: seq<string>, actions: seq<Path>)
    requires ValidPath(root, at)
    ensures choices == LabelsOf(LegacyRows(root, at))
    ensures actions == PathsOf(LegacyRows(root, at))
  {
    var node := NodeAt(root, at);
    var rows: seq<Row>;
    if !node.recursive {
      rows := LegacyRows(root, at);
    } else {
      rows := WalkRows(node, at, false, "", Legacy);
    }
    assert rows == LegacyRows(root, at);
    choices := [];
    actions := [];
    for k := 0 to |rows|
      invariant choices == LabelsOf(rows[..k])
      invariant actions == PathsOf(rows[..k])
    {
      ListedStep(rows, k);
      choices := choices + [LegacyLabel(rows[k].node, rows[k].prefix)];
      actions := actions + [rows[k].path];
    }
    assert rows[..|rows|] == rows;
  }

  /** Every row names a position of the tree and the node found there. */
  lemma LegacyRowsSound(root: TreeNode, at: Path)
    requires ValidPath(root, at)
    ensures var rows := LegacyRows(root, at);
      forall k :: 0 <= k < |rows| ==> ValidPath(root, rows[k].path) && NodeAt(root, rows[k].path) == rows[k].node
  {
    var node := NodeAt(root, at);
    var rows := LegacyRows(root, at);
    if node.recursive {
      WalkIsPreOrder(node, at, false, "", Legacy);
      PreOrderSound(node, at);
      var vs := PreOrder(node, at);
      forall k | 0 <= k < |rows|
        ensures ValidPath(root, rows[k].path) && NodeAt(root, rows[k].path) == rows[k].node
      {
        assert vs[k] == Visit(rows[k].path, rows[k].node);
        var rel := rows[k].path[|at|..];
        assert rows[k].path == at + rel;
        ValidPathAppend(root, at, rel);
      }
    } else {
      forall i | 0 <= i < |node.children|
        ensures ValidPath(root, at + [i]) && NodeAt(root, at + [i]) == node.children[i]
      {
        ValidPathExtend(root, at, i);
      }
    }
  }

  /** The lists stay parallel: the i-th choice renders the node the i-th
      action leads to. */
  lemma LegacyParallel(root: TreeNode, at: Path)
    requires ValidPath(root, at)
    ensures var rows := LegacyRows(root, at);
      var choices := LabelsOf(rows);
      var actions := PathsOf(rows);
      && |choices| == |actions|
      && forall k :: 0 <= k < |actions| ==>
           ValidPath(root, actions[k]) && choices[k] == LegacyLabel(NodeAt(root, actions[k]), rows[k].prefix)
  {
    LegacyRowsSound(root, at);
  }

  /** A recursive node lists its subtree in pre-order, one entry per node,
      itself first. */
  lemma LegacyRecursiveListing(root: TreeNode, at: Path)
    requires ValidPath(root, at) && NodeAt(root, at).recursive
    ensures var node := NodeAt(root, at);
      var actions := PathsOf(LegacyRows(root, at));
      var vs := PreOrder(node, at);
      && |actions| == Size(node) == |vs|
      && (forall k :: 0 <= k < |actions| ==> actions[k] == vs[k].path)
      && actions[0] == at
  {
    var node := NodeAt(root, at);
    WalkIsPreOrder(node, at, false, "", Legacy);
    WalkSize(node, at, false, "", Legacy);
  }

  /** Any other node lists its children in order, rendered without prefix. */
  lemma LegacyChildListing(root: TreeNode, at: Path)
    requires ValidPath(root, at) && !NodeAt(root, at).recursive
    ensures var node := NodeAt(root, at);
      var rows := LegacyRows(root, at);
      var choices := LabelsOf(rows);
      var actions := PathsOf(rows);
      && |actions| == |node.children|
      && forall i :: 0 <= i < |actions| ==> actions[i] == at + [i] && choices[i] == LegacyLabel(node.children[i], "")
  {
  }

  /** Below the walked node, each child's entry carries the parent's
      continuation glyph and half the parent's label length in spaces, for
      headers and other nodes alike. */
  lemma LegacyChildPrefix(root: TreeNode, at: Path, j: nat)
    requires ValidPath(root, at) && NodeAt(root, at).recursive
    requires j < |NodeAt(root, at).children|
    ensures var node := NodeAt(root, at);
      var rows := LegacyRows(root, at);
      var k := 1 + ChildrenSize(node, 0) - ChildrenSize(node, j);
      var c := node.children[j];
      && 0 <= k < |rows| && rows[k].path == at + [j]
      && rows[k].prefix ==
           (if node.kind == Header then "" else Bar) + Spaces(JsLength(node.labelText) / 2) +
           (if c.kind == Header then "" else Connector(j == |node.children| - 1))
  {
    var node := NodeAt(root, at);
    assert Clean("");
    ChildEntry(node, at, false, "", Legacy, j);
    assert "" + Bar == Bar;
  }

  // --------------------------------------------------------------- the menu

  const LegacyBack: string := " ⮢"

  /** The directions prompt: choices, their target nodes and the index of the
      default choice. */
  datatype Menu = Menu(choices: seq<string>, targets: seq<Path>, defaultIndex: nat)

  /** `startVisualization`'s prompt at a node: the back option, leading to the
      parent, is put in front, with the cursor on the entry after it, exactly
      when the node has a parent. */
  function LegacyMenu(root: TreeNode, at: Path): Menu
    requires ValidPath(root, at)
  {
    var rows := LegacyRows(root, at);
    var parent := FindParent(root, [], at);
    if parent.Some? then Menu([LegacyBack] + LabelsOf(rows), [parent.value] + PathsOf(rows), 1)
    else Menu(LabelsOf(rows), PathsOf(rows), 0)
  }

  /** The prompt as `startVisualization` assembles it. */
  method StartVisualization(root: TreeNode, at: Path) returns (m: Menu)
    requires ValidPath(root, at)
    ensures m == LegacyMenu(root, at)
  {
    var choices, actions := LegacyChoicesAndActions(root, at);
    var parent := FindParent(root, [], at);
    var defaultChoice := 0;
    if parent.Some? {
      choices := [LegacyBack] + choices;
      actions := [parent.value] + actions;
      defaultChoice := 1;
    }
    m := Menu(choices, actions, defaultChoice);
  }

  /** The back option is present, first, leading to the parent and with the
      default on the next entry, if and only if the node is not the root. */
  lemma LegacyBackOption(root: TreeNode, at: Path)
    requires ValidPath(root, at)
    ensures var m := LegacyMenu(root, at);
      var rows := LegacyRows(root, at);
      && |m.choices| == |m.targets|
      && (at != [] <==> m.defaultIndex == 1)
      && (at == [] <==> m.defaultIndex == 0)
      && (at != [] ==> m.choices == [LegacyBack] + LabelsOf(rows) && m.targets == [at[..|at| - 1]] + PathsOf(rows))
      && (at == [] ==> m.choices == LabelsOf(rows) && m.targets == PathsOf(rows))
  {
    FindParentFromRoot(root, at);
  }

  /** `choices.indexOf(answer)`: the target of the first choice equal to the
      answer. */
  function SelectedTarget(m: Menu, answer: string): (p: Path)
    requires answer in m.choices && |m.choices| == |m.targets|
    ensures exists k :: 0 <= k < |m.choices| && m.choices[k] == answer && m.targets[k] == p
  {
    m.targets[FirstIndex(m.choices, answer)]
  }

  /** When the choice texts are pairwise different, selecting the k-th choice
      leads to the k-th target. */
  lemma SelectDistinct(m: Menu, k: nat)
    requires |m.choices| == |m.targets| && k < |m.choices|
    requires forall i, j :: 0 <= i < j < |m.choices| ==> m.choices[i] != m.choices[j]
    ensures SelectedTarget(m, m.choices[k]) == m.targets[k]
  {
    FirstIndexUnique(m.choices, m.choices[k], k);
  }

  /** Two choices with the same text: selecting the second one leads to the
      target of the first. */
  lemma SelectDuplicate(m: Menu, i: nat, j: nat)
    requires |m.choices| == |m.targets| && i < j < |m.choices| && m.choices[i] == m.choices[j]
    requires forall k :: 0 <= k < i ==> m.choices[k] != m.choices[i]
    ensures SelectedTarget(m, m.choices[j]) == m.targets[i]
  {
    assert m.choices[i] !in m.choices[..i];
    FirstIndexUnique(m.choices, m.choices[i], i);
  }

  /** What follows a selection: the challenge prompt for a challenge, the
      directions prompt again for a header, nothing for the other types. */
  datatype Next = ChallengePrompt(at: Path) | Directions(at: Path) | Done

  function AfterSelect(root: TreeNode, p: Path): (n: Next)
    requires ValidPath(root, p)
    ensures n.ChallengePrompt? <==> NodeAt(root, p).kind == Challenge
    ensures n.Directions? <==> NodeAt(root, p).kind == Header
    ensures !n.Done? ==> n.at == p
  {
    var node := NodeAt(root, p);
    if node.kind == Challenge then ChallengePrompt(p)
    else if node.kind == Header then Directions(p)
    else Done
  }

  /** The prompt `selectNode` shows for a challenge: the back option then the
      challenge's actions, the cursor on the first action. */
  function ChallengeMenu(root: TreeNode, at: Path): (m: seq<string>)
    requires ValidPath(root, at)
  {
    [LegacyBack] + NodeAt(root, at).actions
  }

  /** The outcome of the challenge prompt: back to the nearest header, or the
      action with the chosen label. */
  datatype ChallengeChoice = BackTo(header: Path) | RunAction(actionLabel: string)

  /** `actions.findIndex(action => action.label === selectedAction)`: the
      back option wins over an action of the same label. */
  function ChallengeSelect(root: TreeNode, at: Path, answer: string): (c: ChallengeChoice)
    requires ValidPath(root, at) && answer in ChallengeMenu(root, at)
    ensures c.BackTo? <==> answer == LegacyBack
    ensures c.BackTo? ==> c.header == NearestHeader(root, at)
    ensures c.BackTo? ==> ValidPath(root, c.header) && (c.header == [] || NodeAt(root, c.header).kind == Header)
    ensures c.RunAction? ==> c.actionLabel == answer && answer in NodeAt(root, at).actions
  {
    var menu := ChallengeMenu(root, at);
    var k := FirstIndex(menu, answer);
    if k == 0 then
      var h := NearestHeader(root, at);
      NearestHeaderIsHeader(root, at);
      BackTo(h)
    else
      assert menu[k] == NodeAt(root, at).actions[k - 1];
      RunAction(menu[k])
  }

  /** The nearest header is the root or a header node. */
  lemma NearestHeaderIsHeader(root: TreeNode, at: Path)
    requires ValidPath(root, at)
    ensures NearestHeader(root, at) == [] || NodeAt(root, NearestHeader(root, at)).kind == Header
  {
    if at != [] {
      HeaderAtOrAboveIsHeader(root, at, |at| - 1);
    }
  }

  lemma {:induction false} HeaderAtOrAboveIsHeader(root: TreeNode, at: Path, n: nat)
    requires ValidPath(root, at) && n < |at|
    ensures HeaderAtOrAbove(root, at, n) == [] || NodeAt(root, HeaderAtOrAbove(root, at, n)).kind == Header
  {
    ValidPathPrefix(root, at, n);
    if n > 0 && NodeAt(root, at[..n]).kind != Header {
      HeaderAtOrAboveIsHeader(root, at, n - 1);
    }
  }

  /** In a built tree, selecting a quiz or a capstone project from the
      directions prompt ends the session: their action lists are never
      offered. */
  lemma NonChallengeLeafEnds(root: TreeNode, p: Path)
    requires ValidPath(root, p) && NodeAt(root, p).kind in {Quiz, CapstoneProject}
    ensures AfterSelect(root, p) == Done
  {
  }
}
