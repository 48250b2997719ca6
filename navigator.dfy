/** The current menu (src/index.ts): the `TechTree` class builds the menu tree
    from the catalog and the user's completion records, computes the entries
    of the menu shown at a node, and adds the "back" entry. A node is given by
    its position in the tree; an action is given by its label. */
module Navigator {
  import opened Basics
  import opened Records
  import opened Trees
  import opened Catalog
  import opened Nesting
  import opened ChoiceWalk
  import opened TreeQueries

  // ---------------------------------------------------------------- building

  /** `userChallenges.find(c => c.challengeName === name)?.status === "success"`:
      only the first record with the name decides. */
  function IsCompleted(users: seq<CompletionRecord>, name: string): (b: bool)
    ensures b <==> exists i :: 0 <= i < |users| && users[i].challengeName == name && users[i].status == "success" &&
                     forall j :: 0 <= j < i ==> users[j].challengeName != name
  {
    if users == [] then false
    else if users[0].challengeName == name then users[0].status == "success"
    else
      var b := IsCompleted(users[1..], name);
      assert forall k :: 1 <= k < |users| ==> users[k] == users[1..][k - 1];
      if b then
        var k :| 0 <= k < |users| - 1 && users[1..][k].challengeName == name && users[1..][k].status == "success" &&
                 forall j :: 0 <= j < k ==> users[1..][j].challengeName != name;
        assert users[k + 1] == users[1..][k];
        b
      else b
  }

  /** The labels of `getChallengeActions`, in insertion order: setting up when
      the challenge is not installed, resetting and submitting once it is. */
  function ChallengeActions(installed: bool): (r: seq<string>)
    ensures !installed <==> r == ["Setup Challenge Repository"]
    ensures installed <==> r == ["Reset Challenge", "Submit Completed Challenge"]
  {
    if !installed then ["Setup Challenge Repository"] else ["Reset Challenge", "Submit Completed Challenge"]
  }

  /** The node made from a catalog record (index.ts:126-133), before nesting. */
  function ChallengeNode(c: ChallengeRecord, completed: bool, installed: bool): TreeNode {
    TreeNode(c.labelText, c.name, KindOf(c.kind), c.level, completed, installed, c.enabled,
             ChallengeActions(installed), false, c.description, [])
  }

  function Transform(cs: seq<ChallengeRecord>, users: seq<CompletionRecord>, installed: string -> bool, c: ChallengeRecord): Pending {
    Pending(ChallengeNode(c, IsCompleted(users, c.name), installed(c.name)), ParentName(cs, c.name))
  }

  function Transformed(cs: seq<ChallengeRecord>, users: seq<CompletionRecord>, installed: string -> bool, fs: seq<ChallengeRecord>): (r: seq<Pending>)
    ensures |r| == |fs|
    ensures forall k :: 0 <= k < |fs| ==> r[k] == Transform(cs, users, installed, fs[k])
    ensures ParentsByName(r)
  {
    if fs == [] then [] else Transformed(cs, users, installed, fs[..|fs| - 1]) + [Transform(cs, users, installed, fs[|fs| - 1])]
  }

  /** The number of records whose challenge is completed. */
  function CompletedCount(users: seq<CompletionRecord>, fs: seq<ChallengeRecord>): (n: nat)
    ensures n <= |fs|
  {
    if fs == [] then 0
    else CompletedCount(users, fs[..|fs| - 1]) + (if IsCompleted(users, fs[|fs| - 1].name) then 1 else 0)
  }

  /** The records whose challenge is completed. */
  function CompletedOf(users: seq<CompletionRecord>, fs: seq<ChallengeRecord>): seq<ChallengeRecord> {
    if fs == [] then [] else (if IsCompleted(users, fs[0].name) then [fs[0]] else []) + CompletedOf(users, fs[1..])
  }

  lemma {:induction false} CompletedOfMembers(users: seq<CompletionRecord>, fs: seq<ChallengeRecord>)
    ensures forall c :: c in CompletedOf(users, fs) <==> c in fs && IsCompleted(users, c.name)
  {
    if fs != [] {
      CompletedOfMembers(users, fs[1..]);
      assert fs == [fs[0]] + fs[1..];
    }
  }

  lemma {:induction false} CompletedOfAppend(users: seq<CompletionRecord>, a: seq<ChallengeRecord>, b: seq<ChallengeRecord>)
    ensures CompletedOf(users, a + b) == CompletedOf(users, a) + CompletedOf(users, b)
  {
    if a != [] {
      assert (a + b)[1..] == a[1..] + b;
      CompletedOfAppend(users, a[1..], b);
    } else {
      assert a + b == b;
    }
  }

  /** The counter of the header label counts exactly the completed records. */
  lemma {:induction false} CompletedCountCounts(users: seq<CompletionRecord>, fs: seq<ChallengeRecord>)
    ensures CompletedCount(users, fs) == |CompletedOf(users, fs)|
    ensures forall c :: c in CompletedOf(users, fs) <==> c in fs && IsCompleted(users, c.name)
  {
    CompletedOfMembers(users, fs);
    if fs != [] {
      var n := |fs| - 1;
      CompletedCountCounts(users, fs[..n]);
      CompletedOfAppend(users, fs[..n], [fs[n]]);
      assert fs[..n] + [fs[n]] == fs;
      assert [fs[n]][1..] == [];
    }
  }

  /** The header label: the tag, then "(completed/candidates)". */
  function TagLabel(tag: string, done: nat, total: nat): string {
    tag + " (" + IntToString(done) + "/" + IntToString(total) + ")"
  }

  /** The header of one tag, its challenges nested under it. */
  ghost function TagTree(cs: seq<ChallengeRecord>, users: seq<CompletionRecord>, installed: string -> bool,
                         tag: string): TreeNode
  {
    var fs := TagMembers(cs, tag);
    HeaderNode(TagLabel(tag, CompletedCount(users, fs), |fs|), Lower(tag), true, "",
               Forest(Transformed(cs, users, installed, fs)))
  }

  /** Every tag header is a recursive header named after its lower-cased tag. */
  lemma TagTreeHeader(cs: seq<ChallengeRecord>, users: seq<CompletionRecord>, installed: string -> bool, tag: string)
    ensures var h := TagTree(cs, users, installed, tag);
      h.kind == Header && h.recursive && h.name == Lower(tag)
  {
  }

  ghost function TagTrees(cs: seq<ChallengeRecord>, users: seq<CompletionRecord>, installed: string -> bool, tags: seq<string>): (r: seq<TreeNode>)
    ensures |r| == |tags|
    ensures forall k :: 0 <= k < |tags| ==> r[k] == TagTree(cs, users, installed, tags[k])
  {
    if tags == [] then []
    else TagTrees(cs, users, installed, tags[..|tags| - 1]) + [TagTree(cs, users, installed, tags[|tags| - 1])]
  }

  /** `tree.filter(category => category.children.length > 0)`: the headers
      with children, in their original order (see `NonEmptyAppend`). */
  function NonEmpty(ts: seq<TreeNode>): (r: seq<TreeNode>)
    ensures forall t :: t in r <==> t in ts && |t.children| > 0
    ensures |ts| == 1 ==> r == (if |ts[0].children| > 0 then ts else [])
  {
    if ts == [] then []
    else
      assert ts == [ts[0]] + ts[1..];
      (if |ts[0].children| > 0 then [ts[0]] else []) + NonEmpty(ts[1..])
  }

  /** The filter keeps order: filtering a concatenation concatenates the
      filtered parts. */
  lemma {:induction false} NonEmptyAppend(a: seq<TreeNode>, b: seq<TreeNode>)
    ensures NonEmpty(a + b) == NonEmpty(a) + NonEmpty(b)
  {
    if a != [] {
      assert (a + b)[1..] == a[1..] + b;
      NonEmptyAppend(a[1..], b);
    } else {
      assert a + b == b;
    }
  }

  /** The tree `buildTree` returns. */
  ghost function BuiltTree(cs: seq<ChallengeRecord>, users: seq<CompletionRecord>, installed: string -> bool): TreeNode
  {
    HeaderNode("Main Menu", "main-menu", false, "", NonEmpty(TagTrees(cs, users, installed, CollectTags(cs))))
  }

  /** The root is the "main-menu" header; its children are exactly the tag
      headers that received at least one challenge, in the order of the
      collected tags, each a recursive header named after its lower-cased tag. */
  lemma BuiltTreeShape(cs: seq<ChallengeRecord>, users: seq<CompletionRecord>, installed: string -> bool)
    ensures var t := BuiltTree(cs, users, installed);
      && t.name == "main-menu" && t.labelText == "Main Menu" && t.kind == Header && !t.recursive
      && t.children == NonEmpty(TagTrees(cs, users, installed, CollectTags(cs)))
      && (forall i :: 0 <= i < |t.children| ==>
            && t.children[i].kind == Header && t.children[i].recursive && |t.children[i].children| > 0
            && (exists tag :: tag in CollectTags(cs) && t.children[i] == TagTree(cs, users, installed, tag)
                 && t.children[i].name == Lower(tag)))
      && (forall tag :: tag in CollectTags(cs) && |TagTree(cs, users, installed, tag).children| > 0 ==>
            TagTree(cs, users, installed, tag) in t.children)
  {
    var tags := CollectTags(cs);
    var kids := NonEmpty(TagTrees(cs, users, installed, tags));
    assert BuiltTree(cs, users, installed) == HeaderNode("Main Menu", "main-menu", false, "", kids);
    KeptHeaders(cs, users, installed, tags);
    NonEmptyHeadersKept(cs, users, installed, tags);
  }

  /** Each header that survives the filter is the header of one of the tags. */
  lemma KeptHeaders(cs: seq<ChallengeRecord>, users: seq<CompletionRecord>, installed: string -> bool, tags: seq<string>)
    ensures var kids := NonEmpty(TagTrees(cs, users, installed, tags));
      forall i :: 0 <= i < |kids| ==>
        && kids[i].kind == Header && kids[i].recursive && |kids[i].children| > 0
        && (exists tag :: tag in tags && kids[i] == TagTree(cs, users, installed, tag) && kids[i].name == Lower(tag))
  {
    var all := TagTrees(cs, users, installed, tags);
    var kids := NonEmpty(all);
    forall i | 0 <= i < |kids|
      ensures kids[i].kind == Header && kids[i].recursive && |kids[i].children| > 0
      ensures exists tag :: tag in tags && kids[i] == TagTree(cs, users, installed, tag)
                && kids[i].name == Lower(tag)
    {
      assert kids[i] in kids;
      var k :| 0 <= k < |all| && all[k] == kids[i];
      assert tags[k] in tags;
      TagTreeHeader(cs, users, installed, tags[k]);
    }
  }

  /** Every tag whose header has children keeps its header. */
  lemma NonEmptyHeadersKept(cs: seq<ChallengeRecord>, users: seq<CompletionRecord>, installed: string -> bool, tags: seq<string>)
    ensures forall tag :: tag in tags && |TagTree(cs, users, installed, tag).children| > 0 ==>
      TagTree(cs, users, installed, tag) in NonEmpty(TagTrees(cs, users, installed, tags))
  {
    var all := TagTrees(cs, users, installed, tags);
    forall tag | tag in tags && |TagTree(cs, users, installed, tag).children| > 0
      ensures TagTree(cs, users, installed, tag) in NonEmpty(all)
    {
      var k :| 0 <= k < |tags| && tags[k] == tag;
      assert all[k] == TagTree(cs, users, installed, tag);
    }
  }

  /** A tag header's label ends with "(completed/candidates)", where the
      candidates are the enabled records with the tag and the completed ones
      are those whose first completion record succeeded. */
  lemma TagTreeLabel(cs: seq<ChallengeRecord>, users: seq<CompletionRecord>, installed: string -> bool, tag: string)
    ensures var fs := TagMembers(cs, tag);
      var done := CompletedOf(users, fs);
      && TagTree(cs, users, installed, tag).labelText == TagLabel(tag, |done|, |fs|)
      && |done| <= |fs|
      && (forall c :: c in fs <==> c in cs && tag in c.tags && c.enabled)
      && (forall c :: c in done <==> c in fs && IsCompleted(users, c.name))
  {
    CompletedCountCounts(users, TagMembers(cs, tag));
    TagMembersExact(cs, tag);
  }

  /** What every node below a tag header carries: it is unlocked, its
      installation flag and action labels follow the oracle, its completion
      follows the user's records, and it is not recursive. */
  function Consistent(users: seq<CompletionRecord>, installed: string -> bool): TreeNode -> bool {
    (n: TreeNode) => n.unlocked && n.installed == installed(n.name) && n.actions == ChallengeActions(installed(n.name)) &&
         n.completed == IsCompleted(users, n.name) && !n.recursive
  }

  /** Every challenge node of the built tree, at any depth, is consistent;
      in particular none is locked. */
  lemma BuiltNodesConsistent(cs: seq<ChallengeRecord>, users: seq<CompletionRecord>, installed: string -> bool, tag: string)
    ensures var h := TagTree(cs, users, installed, tag);
      forall k :: 0 <= k < |h.children| ==> Every(h.children[k], Consistent(users, installed))
  {
    var fs := TagMembers(cs, tag);
    var es := Transformed(cs, users, installed, fs);
    TagMembersExact(cs, tag);
    forall j | 0 <= j < |es| ensures Consistent(users, installed)(Strip(es[j].node)) {
      assert fs[j] in fs;
    }
    NestedEvery(es, None, [], Consistent(users, installed));
  }

  /** A challenge whose parent (the first record listing it) is not among the
      tag's candidates appears nowhere under that tag's header. */
  lemma TagOmitsOrphan(cs: seq<ChallengeRecord>, users: seq<CompletionRecord>, installed: string -> bool,
                       tag: string, x: string, q: string)
    requires ParentName(cs, x) == Some(q)
    requires forall c :: c in TagMembers(cs, tag) ==> c.name != q
    ensures var h := TagTree(cs, users, installed, tag);
      forall k :: 0 <= k < |h.children| ==> NoneNamed(h.children[k], {x})
  {
    var fs := TagMembers(cs, tag);
    var es := Transformed(cs, users, installed, fs);
    assert q !in Names(es) by {
      forall j | 0 <= j < |es| ensures es[j].node.name != q {
        assert fs[j] in fs;
      }
    }
    NestedOmitsUnrooted(es, None, [], {x});
  }

  /** Two challenges each of which is the other's parent (the first record
      listing it) lead up to no root: neither appears under any tag header,
      at any depth, and building the tree still ends. */
  lemma TagOmitsCycle(cs: seq<ChallengeRecord>, users: seq<CompletionRecord>, installed: string -> bool,
                      tag: string, a: string, b: string)
    requires ParentName(cs, a) == Some(b) && ParentName(cs, b) == Some(a)
    ensures var h := TagTree(cs, users, installed, tag);
      forall k :: 0 <= k < |h.children| ==> NoneNamed(h.children[k], {a, b})
  {
    var fs := TagMembers(cs, tag);
    var es := Transformed(cs, users, installed, fs);
    forall j | 0 <= j < |es| && es[j].node.name in {a, b}
      ensures es[j].parentName.Some? && es[j].parentName.value in {a, b}
    {
      assert es[j].parentName == ParentName(cs, es[j].node.name);
    }
    NestedOmitsUnrooted(es, None, [], {a, b});
  }

  // ------------------------------------------------------------ menu entries

  datatype Choice = Choice(name: string, value: string)

  /** What an entry of the action dictionary does: open a node, or run one of
      a challenge's actions. */
  datatype Target = GoTo(path: Path) | Perform(action: string)

  /** One menu entry: the text shown, the value returned, and the dictionary
      entry written under that value. */
  datatype Entry = Entry(name: string, value: string, target: Target)

  /** `getNodeLabel`: the prefix, a space, the label, then a marker by kind.
      Headers, locked nodes and other kinds carry no marker; an unlocked
      challenge ends with a space and, once completed, the trophy. */
  function NodeLabel(n: TreeNode, depth: string): (r: string)
    ensures IsPrefix(depth + " " + n.labelText, r)
    ensures n.kind == Header || !n.unlocked || n.kind.OtherKind? ==> r == depth + " " + n.labelText
    ensures n.kind == Challenge && n.unlocked ==> (r[|r| - 1] == '\U{1F3C6}' <==> n.completed)
    ensures n.kind == Challenge && n.unlocked && n.completed ==> EndsWith(r, " \U{1F3C6}") && |r| == |depth + " " + n.labelText| + 2
    ensures n.kind == Challenge && n.unlocked && !n.completed ==> EndsWith(r, " ") && |r| == |depth + " " + n.labelText| + 1
    ensures n.kind == Quiz && n.unlocked ==> EndsWith(r, " \U{1F4DC}") && |r| == |depth + " " + n.labelText| + 2
    ensures n.kind == CapstoneProject && n.unlocked ==> EndsWith(r, " \U{1F4BB}") && |r| == |depth + " " + n.labelText| + 2
  {
    var base := depth + " " + n.labelText;
    if n.kind == Header then base
    else if !n.unlocked then base
    else if n.kind == Challenge then base + " " + (if n.completed then "\U{1F3C6}" else "")
    else if n.kind == Quiz then base + " \U{1F4DC}"
    else if n.kind == CapstoneProject then base + " \U{1F4BB}"
    else base
  }

  function ChildEntries(node: TreeNode, at: Path): seq<Entry> {
    seq(|node.children|, i requires 0 <= i < |node.children| =>
      Entry(NodeLabel(node.children[i], ""), node.children[i].labelText, GoTo(at + [i])))
  }

  function ActionEntries(actions: seq<string>): seq<Entry> {
    seq(|actions|, i requires 0 <= i < |actions| => Entry(actions[i], actions[i], Perform(actions[i])))
  }

  function RowEntries(rows: seq<Row>): seq<Entry> {
    seq(|rows|, i requires 0 <= i < |rows| =>
      Entry(NodeLabel(rows[i].node, rows[i].prefix), rows[i].node.labelText, GoTo(rows[i].path)))
  }

  /** The entries `getChoicesAndActions` produces for the node at `at`. */
  function Entries(root: TreeNode, at: Path): seq<Entry>
    requires ValidPath(root, at)
  {
    var node := NodeAt(root, at);
    if !node.recursive then
      if node.kind != Challenge then ChildEntries(node, at) else ActionEntries(node.actions)
    else RowEntries(Walk(node, at, false, "", Current))
  }

  function ChoicesOf(es: seq<Entry>): seq<Choice> {
    seq(|es|, i requires 0 <= i < |es| => Choice(es[i].name, es[i].value))
  }

  lemma ChoicesStep(es: seq<Entry>, k: nat)
    requires k < |es|
    ensures ChoicesOf(es[..k + 1]) == ChoicesOf(es[..k]) + [Choice(es[k].name, es[k].value)]
  {
    var a := ChoicesOf(es[..k + 1]);
    var b := ChoicesOf(es[..k]) + [Choice(es[k].name, es[k].value)];
    forall i | 0 <= i <= k
      ensures a[i] == b[i]
    {
      assert es[..k + 1][i] == es[i];
      if i < k {
        assert es[..k][i] == es[i];
      }
    }
  }

  /** The dictionary after writing the entries in order. */
  function Apply(m: map<string, Target>, es: seq<Entry>): map<string, Target>
    decreases |es|
  {
    if es == [] then m else Apply(m[es[0].value := es[0].target], es[1..])
  }

  /** Reference for a dictionary written entry by entry: the target of the last
      entry with the key. */
  function LastWith(es: seq<Entry>, key: string): (r: Option<Target>)
    ensures r.None? <==> forall k :: 0 <= k < |es| ==> es[k].value != key
    ensures r.Some? ==> exists k :: 0 <= k < |es| && es[k].value == key && es[k].target == r.value &&
                          forall j :: k < j < |es| ==> es[j].value != key
  {
    if es == [] then None
    else
      var r := LastWith(es[1..], key);
      assert forall k :: 1 <= k < |es| ==> es[k] == es[1..][k - 1];
      if r.Some? then
        var k :| 0 <= k < |es| - 1 && es[1..][k].value == key && es[1..][k].target == r.value &&
                 forall j :: k < j < |es| - 1 ==> es[1..][j].value != key;
        assert es[k + 1] == es[1..][k];
        r
      else if es[0].value == key then Some(es[0].target)
      else None
  }

  /** Later entries with the same value overwrite earlier ones; keys no entry
      writes keep their previous target. */
  lemma {:induction false} ApplyLast(m: map<string, Target>, es: seq<Entry>, key: string)
    ensures LastWith(es, key).Some? ==> key in Apply(m, es) && Apply(m, es)[key] == LastWith(es, key).value
    ensures LastWith(es, key).None? ==> (key in Apply(m, es) <==> key in m) &&
                                        (key in m ==> Apply(m, es)[key] == m[key])
    decreases |es|
  {
    if es != [] {
      ApplyLast(m[es[0].value := es[0].target], es[1..], key);
    }
  }

  lemma {:induction false} ApplyStep(m: map<string, Target>, es: seq<Entry>, i: nat)
    requires i < |es|
    ensures Apply(m, es[i..]) == Apply(m[es[i].value := es[i].target], es[i + 1..])
  {
    assert es[i..][0] == es[i] && es[i..][1..] == es[i + 1..];
  }

  /** `getChoicesAndActions`: the choices pushed and the dictionary written. */
  method GetChoicesAndActions(root: TreeNode, at: Path) returns (choices: seq<Choice>, actions: map<string, Target>)
    requires ValidPath(root, at)
    ensures choices == ChoicesOf(Entries(root, at))
    ensures actions == Apply(map[], Entries(root, at))
  {
    var node := NodeAt(root, at);
    var es := Entries(root, at);
    choices := [];
    actions := map[];
    if !node.recursive {
      if node.kind != Challenge {
        choices := ChoicesOf(ChildEntries(node, at));
        assert es[0..] == es;
        for i := 0 to |node.children|
          invariant Apply(actions, es[i..]) == Apply(map[], es)
        {
          ApplyStep(actions, es, i);
          var child := node.children[i];
          actions := actions[child.labelText := GoTo(at + [i])];
        }
        assert es[|node.children|..] == [];
      } else {
        actions := Apply(map[], ActionEntries(node.actions));
        choices := ChoicesOf(ActionEntries(node.actions));
      }
      return;
    }
    var rows := WalkRows(node, at, false, "", Current);
    assert es == RowEntries(rows);
    assert es[0..] == es;
    for k := 0 to |rows|
      invariant choices == ChoicesOf(es[..k])
      invariant Apply(actions, es[k..]) == Apply(map[], es)
    {
      ApplyStep(actions, es, k);
      ChoicesStep(es, k);
      var r := rows[k];
      choices := choices + [Choice(NodeLabel(r.node, r.prefix), r.node.labelText)];
      actions := actions[r.node.labelText := GoTo(r.path)];
    }
    assert es[..|rows|] == es && es[|rows|..] == [];
  }

  /** A recursive node lists its whole subtree in pre-order, itself first: one
      entry per node, valued by the node's label, each leading to that node,
      shown behind the connector prefix of the walk. */
  lemma RecursiveEntries(root: TreeNode, at: Path)
    requires ValidPath(root, at) && NodeAt(root, at).recursive
    ensures var node := NodeAt(root, at);
      var es := Entries(root, at);
      var vs := PreOrder(node, at);
      var rows := Walk(node, at, false, "", Current);
      && |es| == Size(node) == |vs|
      && forall k :: 0 <= k < |es| ==>
           && es[k].value == vs[k].node.labelText
           && es[k].target == GoTo(vs[k].path)
           && es[k].name == NodeLabel(vs[k].node, rows[k].prefix)
  {
    var node := NodeAt(root, at);
    WalkIsPreOrder(node, at, false, "", Current);
    WalkSize(node, at, false, "", Current);
  }

  /** A node that is neither recursive nor a challenge lists its children in
      order, each valued by its label and leading to its position. */
  lemma ChildrenEntries(root: TreeNode, at: Path)
    requires ValidPath(root, at)
    requires !NodeAt(root, at).recursive && NodeAt(root, at).kind != Challenge
    ensures var node := NodeAt(root, at);
      var es := Entries(root, at);
      && |es| == |node.children|
      && forall i :: 0 <= i < |es| ==>
           && es[i].value == node.children[i].labelText
           && es[i].name == NodeLabel(node.children[i], "")
           && es[i].target == GoTo(at + [i])
           && ValidPath(root, at + [i]) && NodeAt(root, at + [i]) == node.children[i]
  {
    var node := NodeAt(root, at);
    forall i | 0 <= i < |node.children|
      ensures ValidPath(root, at + [i]) && NodeAt(root, at + [i]) == node.children[i]
    {
      ValidPathExtend(root, at, i);
    }
  }

  /** A challenge node lists its action labels, each running that action. */
  lemma ChallengeEntries(root: TreeNode, at: Path)
    requires ValidPath(root, at)
    requires !NodeAt(root, at).recursive && NodeAt(root, at).kind == Challenge
    ensures var node := NodeAt(root, at);
      var es := Entries(root, at);
      && |es| == |node.actions|
      && forall i :: 0 <= i < |es| ==> es[i] == Entry(node.actions[i], node.actions[i], Perform(node.actions[i]))
  {
  }

  // --------------------------------------------------------------- messages

  /** `getChallengeMessage`: label, description, then the completion line, or
      the install location when installed and not completed. */
  function ChallengeMessage(n: TreeNode, installLocation: string): string {
    n.labelText + "\n" + n.message + "\n" +
    (if n.completed then "\n\U{1F3C6} Challenge Completed"
     else if n.installed then
       "\nOpen up the challenge in your favorite code editor and follow the instructions in the README:\n\n" +
       "\U{1F4C2} Challenge Location: " + installLocation + "/" + n.name
     else "") +
    "\n\n"
  }

  /** `getMessage`: a challenge shows its own message; any other node asks for
      a challenge exactly when one of its children is a challenge. */
  function GetMessage(n: TreeNode, installLocation: string): (r: string)
    ensures n.kind == Challenge ==> r == ChallengeMessage(n, installLocation)
    ensures n.kind != Challenge ==>
              (r == "Select a challenge" <==> exists i :: 0 <= i < |n.children| && n.children[i].kind == Challenge)
    ensures n.kind != Challenge ==>
              (r == "Select a category" <==> forall i :: 0 <= i < |n.children| ==> n.children[i].kind != Challenge)
  {
    if n.kind == Challenge then ChallengeMessage(n, installLocation)
    else if exists i :: 0 <= i < |n.children| && n.children[i].kind == Challenge then "Select a challenge"
    else "Select a category"
  }

  // ------------------------------------------------------------- navigation

  /** The name of the back entry. */
  const BackName: string := " ⤴️"

  /** What `navigate` does at a node: redirect to the header of a locked node,
      fail, or show a prompt (message, choices, dictionary, default value). */
  datatype Screen =
    | Redirect(to: Path)
    | Crash
    | Prompt(message: string, choices: seq<Choice>, actions: map<string, Target>, defaultValue: Option<string>)

  predicate Locked(n: TreeNode) {
    n.kind != Header && !n.unlocked
  }

  /** Where the back entry leads: the nearest header for a challenge (even
      at the root), the parent for any other node, nothing for a root that is
      not a challenge. */
  function BackTarget(root: TreeNode, at: Path): (b: Option<Path>)
    requires ValidPath(root, at)
    ensures b.Some? ==> ValidPath(root, b.value)
    ensures NodeAt(root, at).kind == Challenge ==> b == Some(NearestHeader(root, at))
    ensures NodeAt(root, at).kind != Challenge ==> b == (if at == [] then None else Some(at[..|at| - 1]))
  {
    FindParentFromRoot(root, at);
    ValidPathPrefix(root, at, if at == [] then 0 else |at| - 1);
    if NodeAt(root, at).kind == Challenge then Some(NearestHeader(root, at)) else FindParent(root, [], at)
  }

  /** The prompt of `navigate` as written: with the back entry prepended, the
      default is the value of the second choice, which does not exist when the
      node has no entries of its own. */
  function ScreenAsWritten(root: TreeNode, at: Path, installLocation: string): Screen
    requires ValidPath(root, at)
  {
    var node := NodeAt(root, at);
    if Locked(node) then Redirect(NearestHeader(root, at))
    else
      var es := Entries(root, at);
      var message := GetMessage(node, installLocation);
      var back := BackTarget(root, at);
      if back.None? then Prompt(message, ChoicesOf(es), Apply(map[], es), None)
      else
        var b := back.value;
        var backLabel := NodeAt(root, b).labelText;
        var choices := [Choice(BackName, backLabel)] + ChoicesOf(es);
        if |choices| < 2 then Crash
        else Prompt(message, choices, Apply(map[], es)[backLabel := GoTo(b)], Some(choices[1].value))
  }

  /** The prompt with the default guarded: the first entry after the back
      entry when there is one, no default otherwise. */
  function GuardedScreen(root: TreeNode, at: Path, installLocation: string): Screen
    requires ValidPath(root, at)
  {
    var node := NodeAt(root, at);
    if Locked(node) then Redirect(NearestHeader(root, at))
    else
      var es := Entries(root, at);
      var message := GetMessage(node, installLocation);
      var back := BackTarget(root, at);
      if back.None? then Prompt(message, ChoicesOf(es), Apply(map[], es), None)
      else
        var b := back.value;
        var backLabel := NodeAt(root, b).labelText;
        var choices := [Choice(BackName, backLabel)] + ChoicesOf(es);
        Prompt(message, choices, Apply(map[], es)[backLabel := GoTo(b)],
               if |choices| > 1 then Some(choices[1].value) else None)
  }

  /** `navigate` as written fails exactly at an unlocked node that has a back
      entry but no entry of its own: a childless node that is neither
      recursive nor a challenge (below the root), or a challenge without
      actions. */
  lemma CrashIff(root: TreeNode, at: Path, installLocation: string)
    requires ValidPath(root, at)
    ensures var node := NodeAt(root, at);
      ScreenAsWritten(root, at, installLocation) == Crash <==>
        && !Locked(node) && !node.recursive
        && ((node.kind != Challenge && |node.children| == 0 && at != []) ||
            (node.kind == Challenge && |node.actions| == 0))
  {
    var node := NodeAt(root, at);
    FindParentFromRoot(root, at);
    if node.recursive {
      WalkSize(node, at, false, "", Current);
    }
  }

  /** The guarded prompt never fails, and it agrees with the prompt as written
      wherever that one does not fail. */
  lemma ScreenGuarded(root: TreeNode, at: Path, installLocation: string)
    requires ValidPath(root, at)
    ensures GuardedScreen(root, at, installLocation) != Crash
    ensures ScreenAsWritten(root, at, installLocation) != Crash ==>
              GuardedScreen(root, at, installLocation) == ScreenAsWritten(root, at, installLocation)
  {
  }

  /** The back entry: it comes first, is valued by the label of the nearest
      header (challenge) or of the parent (any other node), leads there, and
      the cursor starts on the next entry; at the root there is none. */
  lemma BackEntry(root: TreeNode, at: Path, installLocation: string)
    requires ValidPath(root, at) && !Locked(NodeAt(root, at))
    ensures var node := NodeAt(root, at);
      var s := GuardedScreen(root, at, installLocation);
      && s.Prompt?
      && (at == [] && node.kind != Challenge ==>
            s.choices == ChoicesOf(Entries(root, at)) && s.defaultValue.None?)
      && (at != [] || node.kind == Challenge ==>
            var b := if node.kind == Challenge then NearestHeader(root, at) else at[..|at| - 1];
            && ValidPath(root, b)
            && |s.choices| >= 1
            && s.choices[0] == Choice(BackName, NodeAt(root, b).labelText)
            && s.choices[1..] == ChoicesOf(Entries(root, at))
            && s.actions[NodeAt(root, b).labelText] == GoTo(b)
            && (|Entries(root, at)| > 0 ==> s.defaultValue == Some(Entries(root, at)[0].value)))
  {
    FindParentFromRoot(root, at);
    var node := NodeAt(root, at);
    if at != [] || node.kind == Challenge {
      var b := BackTarget(root, at).value;
      var choices := [Choice(BackName, NodeAt(root, b).labelText)] + ChoicesOf(Entries(root, at));
      assert choices[1..] == ChoicesOf(Entries(root, at));
    }
  }

  /** A navigation into a quiz without children: the prompt as written fails. */
  lemma QuizLeafCrashes()
    ensures var quiz := TreeNode("Intro", "intro", Quiz, 1, false, false, true, [], false, "Read me", []);
      var tag := HeaderNode("basics (0/1)", "basics", true, "", [quiz]);
      var root := HeaderNode("Main Menu", "main-menu", false, "", [tag]);
      ValidPath(root, [0, 0]) && ScreenAsWritten(root, [0, 0], "/tmp") == Crash
  {
    var quiz := TreeNode("Intro", "intro", Quiz, 1, false, false, true, [], false, "Read me", []);
    var tag := HeaderNode("basics (0/1)", "basics", true, "", [quiz]);
    var root := HeaderNode("Main Menu", "main-menu", false, "", [tag]);
    assert ValidPath(root, [0, 0]) by {
      assert [0, 0][1..] == [0];
      assert [0][1..] == [];
    }
    CrashIff(root, [0, 0], "/tmp");
  }

  /** The dictionary `getChallengeActions` stored in the node after `navigate`
      wrote the back entry into it: the same object is returned for a
      challenge and written to. */
  function AddKey(keys: seq<string>, k: string): (r: seq<string>)
    ensures k in r && forall x :: x in keys ==> x in r
  {
    if k in keys then keys else keys + [k]
  }

  /** The tree after `navigate` at `at` as written. */
  function Visited(root: TreeNode, at: Path): TreeNode
    requires ValidPath(root, at)
  {
    var node := NodeAt(root, at);
    if !Locked(node) && !node.recursive && node.kind == Challenge then
      var b := NearestHeader(root, at);
      ReplaceAt(root, at, node.(actions := AddKey(node.actions, NodeAt(root, b).labelText)))
    else root
  }

  /** Opening a challenge, going back to its header and opening it again
      shows the header's label a second time, as an entry of the challenge's
      own. */
  lemma RevisitAddsHeaderEntry()
    ensures var c := TreeNode("Hello", "hello", Challenge, 1, false, false, true,
                              ["Setup Challenge Repository"], false, "Say hello", []);
      var tag := HeaderNode("basics (0/1)", "basics", true, "", [c]);
      var root := HeaderNode("Main Menu", "main-menu", false, "", [tag]);
      && ValidPath(root, [0, 0])
      && ScreenAsWritten(root, [0, 0], "/tmp").choices ==
           [Choice(BackName, "basics (0/1)"), Choice("Setup Challenge Repository", "Setup Challenge Repository")]
      && ValidPath(Visited(root, [0, 0]), [0, 0])
      && ScreenAsWritten(Visited(root, [0, 0]), [0, 0], "/tmp").choices ==
           [Choice(BackName, "basics (0/1)"), Choice("Setup Challenge Repository", "Setup Challenge Repository"),
            Choice("basics (0/1)", "basics (0/1)")]
  {
    var c := TreeNode("Hello", "hello", Challenge, 1, false, false, true,
                      ["Setup Challenge Repository"], false, "Say hello", []);
    var tag := HeaderNode("basics (0/1)", "basics", true, "", [c]);
    var root := HeaderNode("Main Menu", "main-menu", false, "", [tag]);
    var p: Path := [0, 0];
    assert ValidPath(root, p) by {
      assert p[1..] == [0];
      assert [0][1..] == [];
    }
    assert NodeAt(root, p) == c by {
      assert p[1..] == [0];
      assert [0][1..] == [];
    }
    assert NodeAt(root, [0]) == tag by {
      assert [0][1..] == [];
    }
    assert NearestHeader(root, p) == [0] by {
      assert p[..1] == [0];
    }
    var v := Visited(root, p);
    var c2 := c.(actions := ["Setup Challenge Repository", "basics (0/1)"]);
    assert NodeAt(v, p) == c2;
    assert NodeAt(v, [0]).labelText == "basics (0/1)" by {
      assert [0][1..] == [];
      assert p[1..] == [0];
    }
    assert NearestHeader(v, p) == [0] by {
      assert p[..1] == [0];
      assert NodeAt(v, [0]).kind == Header by {
        assert [0][1..] == [];
        assert p[1..] == [0];
      }
    }
  }

  /** With the guarded prompt and no write into the tree, every visit to an
      unlocked challenge lists exactly the back entry to its nearest header
      followed by its own actions. */
  lemma ChallengeScreen(root: TreeNode, at: Path, installLocation: string)
    requires ValidPath(root, at)
    requires NodeAt(root, at).kind == Challenge && !Locked(NodeAt(root, at)) && !NodeAt(root, at).recursive
    ensures var node := NodeAt(root, at);
      var h := NearestHeader(root, at);
      GuardedScreen(root, at, installLocation).choices ==
        [Choice(BackName, NodeAt(root, h).labelText)] + ChoicesOf(ActionEntries(node.actions))
  {
  }

  // ------------------------------------------------------------- the class

  /** The state of the menu: the catalog, the user's records, the tree last
      built and the node the back entry last led to. */
  class TechTree {
    var challenges: seq<ChallengeRecord>
    var users: seq<CompletionRecord>
    var installLocation: string
    var globalTree: TreeNode
    var backNode: Option<Path>

    /** Loads the catalog and the user state (given here) and builds the tree. */
    constructor(challenges: seq<ChallengeRecord>, users: seq<CompletionRecord>, installLocation: string,
                installed: string -> bool)
      ensures this.challenges == challenges && this.users == users && this.installLocation == installLocation
      ensures backNode == None
      ensures globalTree == BuiltTree(challenges, users, installed)
    {
      this.challenges := challenges;
      this.users := users;
      this.installLocation := installLocation;
      this.backNode := None;
      this.globalTree := HeaderNode("Main Menu", "main-menu", false, "", []);
      new;
      globalTree := BuildTree(installed);
    }

    /** `buildTree`: one header per collected tag with the tag's enabled
        challenges nested under it and the completed ones counted, empty
        headers dropped, all under the main menu. */
    method BuildTree(installed: string -> bool) returns (t: TreeNode)
      ensures t == BuiltTree(challenges, users, installed)
    {
      var tags := CollectTags(challenges);
      var tree: seq<TreeNode> := [];
      for ti := 0 to |tags|
        invariant tree == TagTrees(challenges, users, installed, tags[..ti])
      {
        var header := TagHeader(tags[ti], installed);
        tree := tree + [header];
        assert tags[..ti + 1][..ti] == tags[..ti];
      }
      assert tags[..|tags|] == tags;
      t := HeaderNode("Main Menu", "main-menu", false, "", NonEmpty(tree));
    }

    /** The body of `buildTree`'s loop for one tag: filter the candidates,
        transform each while counting the completed ones, nest them. */
    method TagHeader(tag: string, installed: string -> bool) returns (h: TreeNode)
      ensures h == TagTree(challenges, users, installed, tag)
    {
      var filtered := TagMembers(challenges, tag);
      var completedCount := 0;
      var transformed: seq<Pending> := [];
      for k := 0 to |filtered|
        invariant transformed == Transformed(challenges, users, installed, filtered[..k])
        invariant completedCount == CompletedCount(users, filtered[..k])
      {
        assert filtered[..k + 1][..k] == filtered[..k];
        var c := filtered[k];
        var parentName := ParentName(challenges, c.name);
        var completed := IsCompleted(users, c.name);
        if completed {
          completedCount := completedCount + 1;
        }
        transformed := transformed + [Pending(ChallengeNode(c, completed, installed(c.name)), parentName)];
      }
      assert filtered[..|filtered|] == filtered;
      var nested := RecursiveNesting(transformed, None, []);
      h := HeaderNode(TagLabel(tag, completedCount, |filtered|), Lower(tag), true, "", nested);
    }

    /** `navigate` as written. Without a node it rebuilds the tree and starts
        at the root. At a challenge, the back entry is written into the
        challenge's own action dictionary, which stays in the tree. */
    method Navigate(at: Option<Path>, installed: string -> bool) returns (s: Screen)
      requires at.Some? ==> ValidPath(globalTree, at.value)
      modifies this
      ensures challenges == old(challenges) && users == old(users) && installLocation == old(installLocation)
      ensures var tree := if at.None? then BuiltTree(challenges, users, installed) else old(globalTree);
        var p := if at.None? then [] else at.value;
        && ValidPath(tree, p)
        && s == ScreenAsWritten(tree, p, installLocation)
        && globalTree == (if s.Redirect? then tree else Visited(tree, p))
        && backNode == (if s.Redirect? || BackTarget(tree, p).None? then old(backNode) else BackTarget(tree, p))
    {
      var p: Path;
      if at.None? {
        var t := BuildTree(installed);
        globalTree := t;
        p := [];
      } else {
        p := at.value;
      }
      var root := globalTree;
      var node := NodeAt(root, p);
      if node.kind != Header && !node.unlocked {
        var h := FindHeader(root, p);
        return Redirect(h);
      }
      var choices, actions := GetChoicesAndActions(root, p);
      var header := FindHeader(root, p);
      FindParentFromRoot(root, p);
      var parent := FindParent(root, [], p);
      var headerOrParent := if node.kind == Challenge then Some(header) else parent;
      var defaultChoice: Option<string> := None;
      if headerOrParent.Some? {
        var b := headerOrParent.value;
        if parent.Some? {
          ValidPathPrefix(root, p, |p| - 1);
        }
        backNode := Some(b);
        var backLabel := NodeAt(root, b).labelText;
        choices := [Choice(BackName, backLabel)] + choices;
        actions := actions[backLabel := GoTo(b)];
        if !node.recursive && node.kind == Challenge {
          globalTree := ReplaceAt(root, p, node.(actions := AddKey(node.actions, backLabel)));
        }
        if |choices| < 2 {
          return Crash;
        }
        defaultChoice := Some(choices[1].value);
      }
      s := Prompt(GetMessage(node, installLocation), choices, actions, defaultChoice);
    }

    /** `navigate` with the default guarded and the challenge's dictionary
        copied before the back entry is added: the tree is left as built. */
    method NavigateCorrected(at: Option<Path>, installed: string -> bool) returns (s: Screen)
      requires at.Some? ==> ValidPath(globalTree, at.value)
      modifies this
      ensures challenges == old(challenges) && users == old(users) && installLocation == old(installLocation)
      ensures var tree := if at.None? then BuiltTree(challenges, users, installed) else old(globalTree);
        var p := if at.None? then [] else at.value;
        && ValidPath(tree, p)
        && s == GuardedScreen(tree, p, installLocation)
        && s != Crash
        && globalTree == tree
        && backNode == (if s.Redirect? || BackTarget(tree, p).None? then old(backNode) else BackTarget(tree, p))
    {
      var p: Path;
      if at.None? {
        var t := BuildTree(installed);
        globalTree := t;
        p := [];
      } else {
        p := at.value;
      }
      var root := globalTree;
      var node := NodeAt(root, p);
      if node.kind != Header && !node.unlocked {
        var h := FindHeader(root, p);
        return Redirect(h);
      }
      var choices, actions := GetChoicesAndActions(root, p);
      var header := FindHeader(root, p);
      FindParentFromRoot(root, p);
      var parent := FindParent(root, [], p);
      var headerOrParent := if node.kind == Challenge then Some(header) else parent;
      var defaultChoice: Option<string> := None;
      if headerOrParent.Some? {
        var b := headerOrParent.value;
        if parent.Some? {
          ValidPathPrefix(root, p, |p| - 1);
        }
        backNode := Some(b);
        var backLabel := NodeAt(root, b).labelText;
        choices := [Choice(BackName, backLabel)] + choices;
        actions := actions[backLabel := GoTo(b)];
        if |choices| > 1 {
          defaultChoice := Some(choices[1].value);
        }
      }
      s := Prompt(GetMessage(node, installLocation), choices, actions, defaultChoice);
      ScreenGuarded(root, p, installLocation);
    }
  }
}
