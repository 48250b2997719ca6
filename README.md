# eth-tech-tree menu engine in Dafny

This project models the core of the eth-tech-tree command-line tool. The
tool turns a catalog of Ethereum challenges, plus the user's completion
records, into a menu tree:

- a "Main Menu" root;
- one header per tag, labelled with the completed count;
- challenges nested under the challenge that lists them in its
  `childrenNames`.

The model covers:

- how the tree is built, in both the current builder (`src/index.ts`) and the
  older one (`src/utils/tree.ts`);
- the choice list shown at each node, with its tree connectors and padding;
- the tree queries behind the back entry (`findNode`, `findParent`,
  `findHeader`);
- what `navigate` puts on screen;
- the progress view: points, completed entries, and the gas report sorted in
  place;
- the leaderboard view: rank column, padding, and the rank-dependent message;
- the address, points, gas and search helpers;
- the key handling of the custom select prompt;
- the command-line parsing and its follow-up questions;
- the centring of the intro banner.

| module | file | models |
|---|---|---|
| `Basics` | basics.dfy | Option/Result, string helpers, UTF-16 length, `split`/`join` |
| `Records` | records.dfy | `IChallenge`, `IUserChallenge`, `IGasReport` |
| `Trees` | trees.dfy | the menu node, positions (index paths), subtree size, pre-order |
| `TreeQueries` | tree_queries.dfy | `findNode`, `findParent`, `findHeader` |
| `Catalog` | catalog.dfy | tag collection, tag filter, the `parentName` lookup |
| `Nesting` | nesting.dfy | `recursiveNesting` / `NestingMagic` (identical code) |
| `ChoiceWalk` | choice_walk.dfy | the recursive choice walk with connectors, shared by both builders |
| `Navigator` | navigator.dfy | class `TechTree`: `buildTree`, `getChoicesAndActions`, `getNodeLabel`, `getMessage`, `navigate` |
| `LegacyTree` | legacy_tree.dfy | the older builder, `startVisualization`, `selectNode` |
| `Helpers` | helpers.dfy | `isValidAddress`, `isValidAddressOrENS`, `calculatePoints`, `calculateTotalGasUsed`, `searchChallenges` |
| `ProgressView` | progress_view.dfy | `buildProgressTree`, `buildGasReportNode` (the in-place sort on an array) |
| `LeaderboardView` | leaderboard_view.dfy | `buildLeaderboardTree`, `formatSpacing`, `getRankFormatting`, `getUserInfo`, `buildLeaderboardMessage` |
| `SelectPrompt` | select_prompt.dfy | class `Prompt`: bounds, default cursor, keypress transition, `do … while` stepping |
| `CommandArgs` | command_args.dfy | `parseCommandArgumentsAndOptions`, `promptForMissingCommandArgs` |
| `IntroMessage` | intro_message.dfy | `getTrimmedTitleText`, the size test of `checkTerminalSize` |

## Modelling decisions

**Node identity.**
- A node is its position in the tree: the sequence of child indices from the
  root.
- `findParent` compares object references. Two nodes with equal fields are
  therefore still different nodes.

**Cycles in `childrenNames`.**
- `recursiveNesting` starts with no parent name, so it begins at the
  challenges that no record lists as a child. From there it only follows
  parent-to-child links.
- The names along any path from a root are therefore all different, and the
  recursion always ends, on any catalog. The model's termination measure is
  the set of names not yet on that path.
- A challenge whose chain of parents never reaches a root is left out of the
  tree. That covers a parent outside the tag (`Navigator.TagOmitsOrphan`) and
  a cycle of parents (`Navigator.TagOmitsCycle`).

**Parameters instead of external calls.**
- Whether a challenge is installed (`existsSync`) is a parameter
  `installed: string -> bool`.
- ENS resolution is a boolean parameter.
- The answers to interactive questions come from a parameter
  `ask: Question -> string`.
- `toLocaleString` is a parameter `fmt: int -> string`.
- The ANSI-stripping regex is a parameter `strip: string -> string`.
- `chalk` colouring is the identity.

**Strings and numbers.**
- JavaScript string length counts UTF-16 code units (`JsLength`). This
  matters for the medal emoji in the rank column.
- `toLowerCase` is modelled on ASCII letters only.
- Numbers are unbounded integers.

**Action dictionaries.**
- A node's actions are the labels of its action dictionary, in insertion
  order. The closures themselves are targets: go to a position, or perform
  an action.
- Writing a key that already exists keeps its place, as a JavaScript object
  does.

**Behaviour of the code worth knowing.**
- There is no navigation history stack. The back entry is recomputed on
  every visit, with `findHeader` for a challenge and `findParent` for any
  other node.
- A challenge's parent is the first catalog record whose `childrenNames`
  lists its name (`find`).
- A challenge counts as completed when the first of the user's records with
  its name succeeded. Later records with the same name are not consulted.
- The current builder drops a tag header that ends up with no nested
  children. That includes a tag whose challenges all have their parent
  outside the tag. The older builder keeps every tag header, empty ones
  included.
- "Reset Challenge" asks for no confirmation.
- Several literals in `src/index.ts` (lines 61, 179, 188-189 and 215-219)
  are stored double-encoded, for example "â¤´ï¸" and "â”œâ”€". The model uses
  the characters they encode: ⤴️, ├─, └─, │ and 🏆.

## Model

| member | source | states |
|---|---|---|
| Trees.KindOf | src/index.ts:203-207 | "header", "challenge", "quiz" and "capstone-project" name the header, challenge, quiz and capstone-project kinds; any other string, and only such a string, is kept as an unknown kind carrying that string |
| Catalog.CollectTagsIsDedup | src/index.ts:118-120 | the tags are exactly the tags of all challenges, each once, in order of first appearance |
| Catalog.DedupAbsorbs | src/index.ts:118-120 | re-deduplicating after every step of the `reduce` gives the same list as deduplicating once at the end |
| Catalog.Dedup | src/index.ts:119 | `Array.from(new Set(...))` keeps the same members, without duplicates |
| Catalog.TagMembersExact | src/index.ts:123 | a tag's candidates are exactly the enabled challenges that carry the tag |
| Catalog.ParentName | src/index.ts:127 | the parent is the first catalog record, over the whole catalog, whose `childrenNames` lists the name; none when no record does |
| Nesting.RecursiveNesting | src/index.ts:263-273 | on any list of entries whose parent name depends only on the name, the recursion ends and returns the nested forest `Nested` for the given parent name |
| Nesting.ChildExtends | src/index.ts:263-268 | a child of the last name on the path from a root is not on that path, so each recursive call has fewer names left to visit |
| Nesting.NestedSelects | src/index.ts:263-273 | the nodes at one level are exactly the entries whose `parentName` equals the argument, in input order, each with its children nested below it |
| Nesting.SelectedMembers | src/index.ts:266 | an entry is selected iff its `parentName` equals the argument |
| Nesting.NestedOmitsUnrooted | src/index.ts:263-273 | entries whose parents, followed upwards, either leave the entry list or stay inside the same set appear nowhere in the forest, at any depth |
| Nesting.NestedEvery | src/index.ts:263-273 | every node of the forest carries the fields of its own entry |
| Navigator.IsCompleted | src/index.ts:128 | a challenge is completed iff the first of the user's records with its name has status "success" |
| Navigator.ChallengeActions | src/index.ts:281-330 | a challenge that is not installed has exactly the action "Setup Challenge Repository"; an installed one has exactly "Reset Challenge" and "Submit Completed Challenge" |
| Navigator.CompletedCountCounts | src/index.ts:124-131 | `completedCount` is the number of the tag's challenges that count as completed |
| Navigator.TagTreeLabel | src/index.ts:122-145 | a tag header's label is the tag followed by "(done/total)", where total counts the enabled challenges with the tag and done counts the completed ones among them |
| Navigator.NonEmpty | src/index.ts:148 | the headers kept are exactly those with at least one child; a single header is kept iff it has a child |
| Navigator.NonEmptyAppend | src/index.ts:148 | the filter keeps order: filtering a concatenation gives the filtered parts concatenated |
| Navigator.BuiltTreeShape | src/index.ts:115-157 | the root is the "main-menu" header; its children are the non-empty tag headers in the order of the collected tags (the order-preserving filter of the per-tag headers), each recursive and named by its lower-cased tag, and every non-empty tag header is among them |
| Navigator.BuiltNodesConsistent | src/index.ts:125-134 | every challenge node of a tag carries the completion, installation, unlock state and action set derived from its record |
| Navigator.TagOmitsOrphan | src/index.ts:125-135 | a challenge whose first-listed parent is outside the tag's filtered set appears nowhere in that tag |
| Navigator.TagOmitsCycle | src/index.ts:125-135 | two challenges that are each other's first-listed parent (or one that is its own) appear nowhere in any tag, and building the tag still ends |
| Navigator.NodeLabel | src/index.ts:202-223 | a label starts with the depth prefix, a space and the label text; a header, a locked node or an unknown kind has nothing after that; an unlocked challenge adds a space and, iff it is completed, the trophy 🏆; an unlocked quiz adds " 📜" and an unlocked capstone project " 💻" |
| Navigator.GetChoicesAndActions | src/index.ts:159-200 | the choices and the action dictionary are those of the node's entries, each later write to a key replacing the earlier one |
| Navigator.ApplyLast | src/index.ts:184-185 | the dictionary maps a label to the target of the last entry with that label; labels with no entry keep their old value |
| Navigator.RecursiveEntries | src/index.ts:176-197 | a recursive node lists every node of its subtree, itself included, in pre-order: as many entries as the subtree has nodes, each labelled with its connector prefix |
| Navigator.ChildrenEntries | src/index.ts:163-168 | a node that is neither recursive nor a challenge lists its direct children in order, valued by their labels, each leading to that child |
| Navigator.ChallengeEntries | src/index.ts:169-172 | a challenge lists its action labels, in order |
| Navigator.GetMessage | src/index.ts:92-100 | a challenge shows its challenge message; any other node shows "Select a challenge" iff some child is a challenge, else "Select a category" |
| Navigator.BackTarget | src/index.ts:53-59 | the back entry leads to the nearest header for a challenge, even at the root; for any other node it leads to the parent, and it is absent at a root that is not a challenge |
| Navigator.BackEntry | src/index.ts:52-64 | with the guarded default, the back entry comes first and leads to that target, the node's own entries follow, and the default is the first of them |
| Navigator.CrashIff | src/index.ts:59-64 | `navigate` as written fails exactly at an unlocked, non-recursive node that has a back entry but no entry of its own |
| Navigator.QuizLeafCrashes | src/index.ts:63 | a quiz leaf under a tag header is such a node |
| Navigator.ScreenGuarded | src/index.ts:59-64 | the guarded prompt never fails, and agrees with the written one wherever that one does not fail |
| Navigator.RevisitAddsHeaderEntry | src/index.ts:170 | opening a challenge twice without a rebuild shows its header's label as an extra action the second time |
| Navigator.ChallengeScreen | src/index.ts:58-62 | with the guarded prompt, a challenge always lists exactly the back entry followed by its own actions |
| Navigator.TechTree.constructor | src/index.ts:22-28 | the menu starts with the tree built from the catalog and the user's records |
| Navigator.TechTree.BuildTree | src/index.ts:115-157 | the loop over tags returns the built tree |
| Navigator.TechTree.TagHeader | src/index.ts:122-145 | one iteration builds the tag's header |
| Navigator.TechTree.Navigate | src/index.ts:34-90 | `navigate` rebuilds the tree when called without a node and shows the prompt as written; the challenge's action dictionary keeps the back entry written into it, and `backNode` is updated |
| Navigator.TechTree.NavigateCorrected | src/index.ts:34-90 | the same with the guarded default and a copied dictionary: it never fails and leaves the tree unchanged |
| TreeQueries.FindNodeIsFirstInPreOrder | src/index.ts:225-236 | `findNode` returns the first node in pre-order (the node itself, then its children in order) that has the name |
| TreeQueries.FindNodeFinds | src/index.ts:225-236 | a found position is in the tree and names the node; nothing is found iff no node of the tree has the name |
| TreeQueries.FindParentIsInit | src/index.ts:238-248 | `findParent` returns the target's parent position when the target lies strictly below, else nothing |
| TreeQueries.FindParentFromRoot | src/index.ts:238-248 | from the root, `findParent` returns nothing for the root and for positions outside the tree, and the parent position otherwise |
| TreeQueries.FindHeader | src/index.ts:250-261 | the loop returns the nearest proper ancestor that is a header, or the root when there is none or the target is the root or outside the tree |
| ChoiceWalk.Divisor | src/index.ts:192 | the label-proportional padding divides by 5 for a header in the current builder, and by 2 otherwise |
| ChoiceWalk.WalkRows | src/index.ts:176-195 | the recursive walk returns the rows `Walk` describes |
| ChoiceWalk.WalkIsPreOrder | src/index.ts:176-197 | the walk visits the subtree in pre-order |
| ChoiceWalk.WalkSize | src/index.ts:176-197 | the walk emits one row per node of the subtree |
| ChoiceWalk.FirstEntry | src/index.ts:177-184 | the first row is the node itself; a non-header gets `├─`, or `└─` when it is the last sibling |
| ChoiceWalk.ContinueRule | src/index.ts:187-190 | before descending, the trailing `├─` becomes `│ ` and `└─` becomes two spaces |
| ChoiceWalk.DescendedIsChildDepth | src/index.ts:186-193 | the prefix handed to the children is the continued prefix plus floor(label length / divisor) spaces |
| ChoiceWalk.ChildEntry | src/index.ts:177-194 | the row of child j carries the children's prefix plus its connector, which is `└─` iff j is the last child, and none for a header |
| LegacyTree.LegacyActions | src/utils/tree.ts:206-249 | challenges get "Setup Challenge Repository", "Test Challenge", "Deploy Completed Contract"; quizzes get "Mark as Read"; capstone projects get "Submit Project"; other types get none |
| LegacyTree.LegacyTransform | src/utils/tree.ts:202-252 | a record becomes a node with its type's actions, paired with its first-listed parent |
| LegacyTree.BuildLegacyTree | src/utils/tree.ts:193-270 | the loop over tags returns the older tree |
| LegacyTree.LegacyTagHeader | src/utils/tree.ts:200-260 | one iteration builds the tag's header |
| LegacyTree.LegacyTreeShape | src/utils/tree.ts:193-270 | the root "main-menu" has one recursive header per tag, in tag order, labelled with the bare tag, empty ones included |
| LegacyTree.LegacyNodesCarryActions | src/utils/tree.ts:202-253 | every challenge node carries its type's action list |
| LegacyTree.LegacyLabel | src/utils/tree.ts:25-43 | a label starts with the prefix and the label text; challenges end with " ♟️ - LVL <level>", quizzes with " 📖 - LVL <level>" and capstone projects with " 🏆 - LVL <level>"; other kinds have nothing after the text |
| LegacyTree.LegacyChoicesAndActions | src/utils/tree.ts:94-127 | the method returns the label list and the node list of the walk |
| LegacyTree.LegacyParallel | src/utils/tree.ts:94-127 | choices and actions stay parallel: equal length, and choice k renders the node at action k |
| LegacyTree.LegacyRowsSound | src/utils/tree.ts:94-127 | every listed node is the node at its position in the tree |
| LegacyTree.LegacyRecursiveListing | src/utils/tree.ts:104-124 | a recursive node lists its whole subtree in pre-order, itself first |
| LegacyTree.LegacyChildListing | src/utils/tree.ts:98-102 | a non-recursive node lists its direct children in order, with no prefix |
| LegacyTree.LegacyChildPrefix | src/utils/tree.ts:104-121 | a child's prefix is the continued connector plus floor(label length / 2) spaces, for headers as for other nodes |
| LegacyTree.StartVisualization | src/utils/tree.ts:89-145 | the method returns the menu `LegacyMenu` describes |
| LegacyTree.LegacyBackOption | src/utils/tree.ts:129-137 | a back option leading to the parent is prepended, with default index 1, exactly when the node has a parent; otherwise the default is 0 |
| LegacyTree.SelectedTarget | src/utils/tree.ts:147-148 | the answer selects the node paired with its first occurrence among the choices |
| LegacyTree.SelectDistinct | src/utils/tree.ts:147-148 | with distinct choices, each choice selects its own node |
| LegacyTree.SelectDuplicate | src/utils/tree.ts:147-148 | with a repeated label, the later occurrence selects the earlier node |
| LegacyTree.AfterSelect | src/utils/tree.ts:146-152 | after a selection a challenge shows its action prompt, a header is visited, and any other node ends the walk |
| LegacyTree.NonChallengeLeafEnds | src/utils/tree.ts:146-152 | selecting a quiz or capstone project ends the walk |
| LegacyTree.ChallengeSelect | src/utils/tree.ts:55-74 | in the challenge prompt the back entry, and only it, leads to the nearest header (the root or a header node), and any other answer runs that action |
| LegacyTree.NearestHeaderIsHeader | src/utils/tree.ts:167-178 | `findHeader` returns a header or the root |
| Helpers.IsValidAddressOrEns | src/utils/helpers.ts:45-51 | a value ending in ".eth" is accepted iff ENS resolves it, else "Invalid ENS name"; any other value is accepted iff it is a valid address, else "Invalid address" |
| Helpers.AddressNeverEns | src/utils/helpers.ts:41-51 | a valid address never takes the ENS branch, and is accepted |
| Helpers.AddressLowerCase | src/utils/helpers.ts:41-43 | lower-casing a valid address keeps it valid |
| Helpers.UpperPrefixRejected | src/utils/helpers.ts:41-43 | "0X" followed by 40 zeros is rejected, although its lower-cased form is valid |
| Helpers.LevelPoints | src/utils/helpers.ts:65-69 | levels 1..6 score 100, 150, 225, 300, 400, 500; any other level scores 100 |
| Helpers.PointsBounds | src/utils/helpers.ts:64-72 | the points lie between 100 and 500 times the number of entries that have a challenge |
| Helpers.PointsAppend | src/utils/helpers.ts:64-72 | points add up over concatenated lists |
| Helpers.TotalGasIsFlatSum | src/utils/helpers.ts:74-81 | the total gas is the sum of every entry of every gas report; a missing report adds 0 |
| Helpers.SearchMembers | src/utils/helpers.ts:83-90 | the search keeps exactly the enabled challenges whose label contains the term, both lower-cased |
| Helpers.SearchEmptyTerm | src/utils/helpers.ts:83-90 | the empty term keeps every enabled challenge |
| ProgressView.FindChallenge | src/utils/progress-view.ts:14 | the catalog lookup returns the first challenge with the name, or nothing |
| ProgressView.CompletedEntriesMembers | src/utils/progress-view.ts:11-17 | the completed entries are exactly the user's "success" records whose name resolves in the catalog, paired with that challenge |
| ProgressView.CompletedEntriesAppend | src/utils/progress-view.ts:11-17 | the entries keep the order of the user's records |
| ProgressView.ProgressPoints | src/utils/progress-view.ts:52-60 | the points lie between 100 and 500 times the number of completed entries |
| ProgressView.AllResolved | src/utils/progress-view.ts:55 | the filter for a challenge removes nothing when every entry has one |
| ProgressView.SortDescDescending | src/utils/progress-view.ts:88 | the sorted gas report is in non-increasing order of gas used |
| ProgressView.SortDescPermutes | src/utils/progress-view.ts:88 | the sorted gas report is a permutation of the report |
| ProgressView.SortDescKeepsTotal | src/utils/progress-view.ts:88-89 | sorting keeps the total gas |
| ProgressView.InsertLast | src/utils/progress-view.ts:88 | one insertion step places a[i] into the sorted prefix and leaves the rest of the array unchanged |
| ProgressView.SortGasReport | src/utils/progress-view.ts:88 | the in-place sort leaves the array equal to the descending sort of its old contents |
| ProgressView.GasReportShape | src/utils/progress-view.ts:87-107 | the "gas-report" node has one childless child per entry, named "gas-entry-<function>", in non-increasing gas order, and states the total of all entries |
| ProgressView.ProgressTreeShape | src/utils/progress-view.ts:10-50 | the "stats" root has one child per completed entry, in order, taking label and name from the catalog; a child has the gas report as its single child iff its record's report is non-empty |
| LeaderboardView.Identifier | src/utils/leaderboard-view.ts:41 | the identifier is the ENS name when it is non-empty, else the address |
| LeaderboardView.FormatSpacingWidth | src/utils/leaderboard-view.ts:61-76 | text at least as wide as the width is unchanged; otherwise padding brings the visible length to exactly the width, all on the left when not centred, with ceil/floor halves when centred |
| LeaderboardView.RankString | src/utils/leaderboard-view.ts:45-49 | ranks 1 to 3, and only those, get a two-unit medal prefix before the number |
| LeaderboardView.RankColumn | src/utils/leaderboard-view.ts:45-51 | for ranks 1 to 999 the rank column is exactly 5 UTF-16 units wide, right-aligned |
| LeaderboardView.MedalColumn | src/utils/leaderboard-view.ts:45-51 | a medal rank is padded with one space |
| LeaderboardView.EntryLabel | src/utils/leaderboard-view.ts:40-43 | an entry's label starts with the rank column and ends with the identifier |
| LeaderboardView.EntryMessage | src/utils/leaderboard-view.ts:53-59 | an entry's message starts with "Rank <rank>" |
| LeaderboardView.FindUser | src/utils/leaderboard-view.ts:78-80 | the user's entry is the first whose address equals the user's address exactly |
| LeaderboardView.StatementByRank | src/utils/leaderboard-view.ts:82-109 | no entry gives the default statement; rank 1, and only rank 1, the "TOP DOG" statement; rank 2, and only rank 2, the second-place statement; rank 3, and only rank 3, the third-place statement; ranks 4 to 10 "top ten"; any rank outside 1 to 10 "You are rank N." |
| LeaderboardView.HeaderRow | src/utils/leaderboard-view.ts:111 | the column titles read "   Rank  |  Points  | Total Gas Used | Player" |
| LeaderboardView.TitleColumns | src/utils/leaderboard-view.ts:111 | each column title is padded to its width |
| LeaderboardView.LeaderboardTreeShape | src/utils/leaderboard-view.ts:19-38 | the "leaderboard" root has one childless child per entry, in order, named "rank-<rank>", whose label ends with the identifier |
| SelectPrompt.FirstSelectable | src/utils/global-context-select-list.ts:73 | `findIndex`: the first item that is neither a separator nor disabled, or -1 |
| SelectPrompt.LastSelectable | src/utils/global-context-select-list.ts:74 | `findLastIndex`: the last selectable item, or -1 |
| SelectPrompt.GetBounds | src/utils/global-context-select-list.ts:72-83 | with no selectable item the prompt fails with "[select prompt] No selectable choices. All choices are disabled."; otherwise the bounds are the first and last selectable items |
| SelectPrompt.DefaultIndex | src/utils/global-context-select-list.ts:85-90 | the default index is the first selectable item whose value equals the default, or -1 when there is no such item or no default |
| SelectPrompt.InitialActive | src/utils/global-context-select-list.ts:92-94 | the cursor starts on `DefaultIndex`, the first selectable item carrying the default value, else on the first selectable item; either way on a selectable item |
| SelectPrompt.AsWrittenIsContainment | src/utils/global-context-select-list.ts:101-110 | as written, a non-empty key matches iff it contains the pressed key's name, so the comma-list and "ctrl+" branches are reached only by an empty key |
| SelectPrompt.CtrlKeyMisfires | src/utils/global-context-select-list.ts:102-103 | the "ctrl+b" key fires on a plain "c" |
| SelectPrompt.GlobalMisfire | src/utils/global-context-select-list.ts:101-118 | a global choice with key "ctrl+b" finishes the prompt on a plain "c" as written, but not with the corrected match |
| SelectPrompt.PlainKeyMatches | src/utils/global-context-select-list.ts:109 | corrected: a plain key matches exactly the key of that name |
| SelectPrompt.ListKeyMatches | src/utils/global-context-select-list.ts:104-105 | corrected: "q,escape" matches exactly "q" and "escape" |
| SelectPrompt.CtrlKeyMatches | src/utils/global-context-select-list.ts:106-107 | corrected: "ctrl+c" matches exactly Ctrl held with "c" |
| SelectPrompt.FindGlobal | src/utils/global-context-select-list.ts:101-110 | the global choice chosen is the first whose key matches, or none |
| SelectPrompt.SuccIsRemainder | src/utils/global-context-select-list.ts:136 | one step is `(next + offset + length) % length` |
| SelectPrompt.IterClosed | src/utils/global-context-select-list.ts:134-137 | m steps move m places, wrapping once at either end |
| SelectPrompt.Period | src/utils/global-context-select-list.ts:134-137 | as many steps as there are items come back to the start, so the do-while ends |
| SelectPrompt.Landing | src/utils/global-context-select-list.ts:133-138 | the do-while stops on a selectable item, after skipping only unselectable ones |
| SelectPrompt.DownWithoutWrap | src/utils/global-context-select-list.ts:133-138 | Down lands on the nearest selectable item below the cursor when there is one |
| SelectPrompt.UpWithoutWrap | src/utils/global-context-select-list.ts:133-138 | Up lands on the nearest selectable item above the cursor when there is one |
| SelectPrompt.MovesToNearest | src/utils/global-context-select-list.ts:126-139 | without looping, Up away from the first bound and Down away from the last move to the nearest selectable item in that direction |
| SelectPrompt.Transition | src/utils/global-context-select-list.ts:99-141 | a matching global choice finishes with its value before anything else; Enter finishes with the item under the cursor; without looping, Up at the first bound and Down at the last do nothing; other keys change nothing; the cursor always rests on a selectable item |
| SelectPrompt.Prompt.constructor | src/utils/global-context-select-list.ts:67-94 | the prompt starts pending, with the cursor on its initial item |
| SelectPrompt.Prompt.Step | src/utils/global-context-select-list.ts:133-138 | the do-while returns the landing index |
| SelectPrompt.Prompt.Handle | src/utils/global-context-select-list.ts:99-141 | the keypress handler updates status and cursor as `Transition` states |
| SelectPrompt.Prompt.Press | src/utils/global-context-select-list.ts:99-141 | a keypress as written: the global choice is looked up with the substring match |
| SelectPrompt.Prompt.PressCorrected | src/utils/global-context-select-list.ts:99-141 | a keypress with the corrected key match |
| SelectPrompt.Open | src/utils/global-context-select-list.ts:72-94 | opening fails with the validation message iff no item is selectable; otherwise the new prompt is pending on its initial item |
| CommandArgs.FlagOf | src/tasks/parse-command-arguments-and-options.ts:67-78 | an argument is an option iff it starts with "-" and is longer than one character |
| CommandArgs.UnknownOptionRejected | src/tasks/parse-command-arguments-and-options.ts:67-78 | an unknown option is rejected with "unknown or unexpected option: <option>" |
| CommandArgs.ParseArgvFlags | src/tasks/parse-command-arguments-and-options.ts:67-80 | with only known options, parsing succeeds, `dev` holds iff "--dev" was given (false otherwise), and the positionals are the non-option arguments in order |
| CommandArgs.LowerAll | src/tasks/parse-command-arguments-and-options.ts:66 | every argument is lower-cased |
| CommandArgs.HelpOf | src/tasks/parse-command-arguments-and-options.ts:82 | help holds iff the flag was given or the first positional is "help" |
| CommandArgs.VersionOf | src/tasks/parse-command-arguments-and-options.ts:84 | version holds iff the flag was given or the first positional is "version" |
| CommandArgs.CommandOf | src/tasks/parse-command-arguments-and-options.ts:90-97 | version gives "version"; else "help X" gives X or null; else the first positional or null |
| CommandArgs.Positional | src/tasks/parse-command-arguments-and-options.ts:109 | a positional is given iff it exists, and null otherwise |
| CommandArgs.ParseCommandArgumentsAndOptions | src/tasks/parse-command-arguments-and-options.ts:63-113 | the first two arguments are dropped and the rest lower-cased; a parse error is passed on; otherwise "setup" maps positionals 1 and 2 to challenge and install location, "submit" maps them to challenge and contract address, missing ones become null, and other commands get no positional fields |
| CommandArgs.HelpShiftsNothing | src/tasks/parse-command-arguments-and-options.ts:93-111 | for "help setup x" the command is "setup", but the positional map still reads from "setup" onwards |
| CommandArgs.Questions | src/tasks/parse-command-arguments-and-options.ts:115-164 | for "setup", questions are asked exactly for a missing challenge and a missing install location (after the fallback to the saved one); for "submit", for a missing challenge and a missing contract address; other commands get none |
| CommandArgs.AnswersOfTwo | src/tasks/parse-command-arguments-and-options.ts:165-174 | each answer is stored under its question's field |
| CommandArgs.AskAll | src/tasks/parse-command-arguments-and-options.ts:165-174 | the question loop collects the answers `AnswersOf` describes |
| CommandArgs.Merge | src/tasks/parse-command-arguments-and-options.ts:176-180 | merging keeps dev, help and command |
| CommandArgs.PromptForMissingCommandArgs | src/tasks/parse-command-arguments-and-options.ts:115-181 | each missing field is replaced by the answer to its question, the install location falls back to the saved one, and every other field is kept |
| CommandArgs.SetupMerge | src/tasks/parse-command-arguments-and-options.ts:119-142 | for "setup" the answers fill exactly the missing challenge and install location |
| CommandArgs.SubmitMerge | src/tasks/parse-command-arguments-and-options.ts:144-164 | for "submit" the answers fill exactly the missing challenge and contract address |
| CommandArgs.OtherCommandsAskNothing | src/tasks/parse-command-arguments-and-options.ts:176-180 | any other command asks nothing and only gains the fallback install location |
| IntroMessage.CheckTerminalSize | src/tasks/render-intro-message.ts:43-56 | the terminal is rejected iff it has fewer than 16 rows or fewer than 80 columns; the message names the minimum 80x16 |
| IntroMessage.NonEmptyLines | src/tasks/render-intro-message.ts:16 | the empty lines of the title are dropped and no other line is; a single line is kept iff it is not empty |
| IntroMessage.NonEmptyLinesAppend | src/tasks/render-intro-message.ts:16 | the filter keeps order and repeats: filtering a concatenation gives the filtered parts concatenated |
| IntroMessage.MaxWidth | src/tasks/render-intro-message.ts:20-22 | the width is the largest visible length of a line |
| IntroMessage.HalfOrZero | src/tasks/render-intro-message.ts:25-28 | `max(0, floor(x / 2))`: 0 for x <= 0, otherwise the lower half of x |
| IntroMessage.Centred | src/tasks/render-intro-message.ts:25 | when the title fits, the space right of the widest line equals the left padding or exceeds it by one, and every line fits |
| IntroMessage.VerticalFill | src/tasks/render-intro-message.ts:28 | up to 20 lines fill 19 or 20 rows with the padding; 20 lines or more get none |
| IntroMessage.PaddedShape | src/tasks/render-intro-message.ts:30-38 | the banner is v blank lines, each line indented by the left padding, and v blank lines |
| IntroMessage.BannerShape | src/tasks/render-intro-message.ts:15-38 | the banner has lineCount + 2v lines: v blank, then the title's non-empty lines indented by the padding, then v blank |
| IntroMessage.BannerLinesUnbroken | src/tasks/render-intro-message.ts:15-38 | no banner line holds a line break, and there is at least one line |
| IntroMessage.BannerSplits | src/tasks/render-intro-message.ts:40 | splitting the joined banner at "\n" gives back its lines |

## Left out

**External effects.**
- `git`, `yarn`, `forge`, `create-eth` and `rm` subprocesses are not modelled.
- HTTP calls (`getUser`, `submitChallenge`, ENS lookup) are not modelled.
- Local storage loading and saving are not modelled.
- Terminal output, `console.clear`, cursor control, `wait` and
  `process.exit` are not modelled.
- A challenge action is recorded as its label. What the action does when run
  is left out.

**The prompt loop.**
- The asynchronous prompt loop, `handleKeyPress`, `AbortController`
  cancellation and `setImmediate` re-entry are not modelled.
- `navigate` is modelled as one call producing one screen. Its recursion
  through the chosen action is left out.
- `getMaxViewHeight` and the page size are left out.

**The select prompt's display.**
- Pagination, `renderItem`, themes and the help line are left out.
- The key classifiers `isEnterKey`, `isUpKey` and `isDownKey` are modelled by
  key name only.

**The argument parser library.**
- `--flag=value`, repeated flags and numeric arguments of the `arg` library
  are left out. Short-flag groups such as `-hv` are modelled for the known
  letters only.

**Messages and formatting.**
- Floating point is left out: `completionRate` and the percentage
  `toFixed(1)` in gas entry messages.
- Dates are left out: the completion timestamp.
- The stats message and the per-challenge completion message of the progress
  view are left out, because they are made only of those values. Challenge
  nodes of the progress view carry an empty message.
- `toLocaleString` is an uninterpreted parameter.
- ANSI stripping is an uninterpreted parameter.
- Colouring is the identity.

**Other parts of the repository.**
- `promptForMissingUserState` is not modelled. It is the interactive
  collection of the user's address and install location, and is called only
  for "submit".
- The `TITLE_TEXT` constant is a parameter of the banner. Its ANSI colours
  are not part of this model.

**Behaviour the model simplifies.**
- Navigator.TechTree.BuildTree: the `.sort` at src/index.ts:137 is modelled
  as the identity. Its comparator `a.unlocked ? -1 : 1` returns -1 for every
  pair, because every filtered challenge is enabled. Under V8's TimSort the
  whole array is then one strictly descending run, which is reversed. Node
  therefore shows each tag's top-level challenges in reverse catalog order,
  while the model keeps catalog order.
- Navigator.TechTree.Navigate: the back entry's closure is a target
  position. Re-entering through it is a separate call.
- ProgressView.SortGasReport: the sort is an insertion sort of the same
  order. JavaScript's `sort` is stable, and so is this sort, but its
  algorithm is not modelled.
- ProgressView.GasReportShape: the sorted array is the user record's own
  report, sorted in place. That aliasing, which reorders the stored record,
  is not modelled.
- Basics.Lower: the lower-casing handles ASCII letters only.
- Catalog.ParentName: `childrenNames` absent in a record is modelled as the
  empty list.

## Findings

| source | as written | input that shows it | evidently intended | confidence | as-written member | corrected member |
|---|---|---|---|---|---|---|
| src/index.ts:63 | the default is `choices[1].value` whenever a back entry was prepended | a quiz leaf (unlocked, no children) under a tag header: `choices` holds only the back entry, so reading `.value` of `undefined` throws a TypeError, which the caller's `catch` swallows and the menu stops | a default only when the node has an entry of its own | high, not executed | Navigator.CrashIff, Navigator.QuizLeafCrashes | Navigator.ScreenGuarded, Navigator.TechTree.NavigateCorrected |
| src/index.ts:170 | a challenge's `actions` is the node's own dictionary, and line 62 then writes the back entry into it | open challenge "hello" under tag "basics (0/1)", go back, open it again: the second visit lists "basics (0/1)" as one of the challenge's actions | a fresh dictionary per visit | high, not executed | Navigator.RevisitAddsHeaderEntry, Navigator.TechTree.Navigate | Navigator.ChallengeScreen, Navigator.TechTree.NavigateCorrected |
| src/utils/global-context-select-list.ts:102-109 | any non-empty key matches by substring containment of the pressed key's name | key "ctrl+b" and a plain "c" pressed without Ctrl: the global choice fires | comma lists, "ctrl+" keys and plain keys matched as the later branches describe | high, not executed | SelectPrompt.CtrlKeyMisfires, SelectPrompt.GlobalMisfire | SelectPrompt.CtrlKeyMatches, SelectPrompt.Prompt.PressCorrected |
